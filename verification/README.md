# Momoi desktop: verified models

Momoi updates itself in place on a user's Windows machine, reroutes the audio of a private
QQ process, shows live logs, and exchanges chat messages over several channels.  This
project models the parts of that program in which a crash, a refused file operation or an
unlucky interleaving could lose something, and proves what they keep.

Every operation on a disk, on the network or in another process ends as an arbitrary
function of a step counter decides: it works, it is refused, it leaves half of its output,
or it reports success without effect.  In the release store, the plan, the update check and
the audio route the process may also die there.  `Disks.dfy` needs no such ending: a process
that dies leaves what a disk leaves that refuses every later operation.  A contract about
such an operation therefore speaks about every pattern of failures.  Failures are counted, and
where an operation ends badly its contract says how many failures that takes, so that it also
says what a single failure can and cannot do.

| file | models |
|---|---|
| `Wrappers.dfy` | options, results, bytes |
| `Paths.dfy` | which file Windows opens for a name found in an archive |
| `Disks.dfy` | a disk on which every operation may fail, and a failed copy may leave a prefix |
| `Archives.dfy` | ZIP entries |
| `Codecs.dfy` | self-delimiting codecs, standing in for JSON where an instance is needed |
| `ShellApply.dfy` | replacing the shell's files under an undo list |
| `ShellPackage.dfy` | unpacking a shell archive, and the whole elevated shell update |
| `AudioRoute.dfy` | the audio preferences and their write-ahead backup |
| `Downloader.dfy` | verified downloads with resume and retry |
| `ReleaseStore.dfy` | immutable release directories and the active pointer |
| `Snapshots.dfy` | the data snapshot taken before an update, and its restore |
| `CodeSwitch.dfy` | switching code and data, or rolling both back |
| `PendingPlan.dfy` | the update plan that survives restarts |
| `UpdateCheck.dfy` | the check that writes such a plan, and what comes of it |
| `Publisher.dfy` | publishing a release, and the client's consistency gate |
| `LiveLog.dfy` | the bounded log and the window that polls it |
| `CxxString.dfy` | the libc++ string record and its two readers |
| `Timeline.dfy` | the timeline of a turn: steps, segments, totals |
| `Grouping.dfy`, `Channel.dfy` | splitting and normalising channel messages |
| `ChatMerge.dfy` | merging pages of the chat list |
| `Witnesses.dfy` | an instance of every codec, hash, platform and case mapping the other files leave open |
| `Counterexamples.dfy` | one input for each property the code does not keep, and methods that call the modelled code on a concrete disk or store |

## What the code does not keep

The models follow the code, not its intentions.  Where a property one would expect fails,
the exact condition under which it holds is proved, and a concrete input at which it fails
is in `Counterexamples.dfy` (named in brackets).

- `ApplyShell` writes its record to `backup.json` in the backup directory.  A shell that
  ships a file named `backup.json` has its saved copy overwritten by that record; when the
  record's write is cut short, the walk back restores everything but that file
  (`RecordSpoilsItsTwin`) [`ReplacedBackupJson`].
- `ApplyShell` makes the backup directory only when it saves a file.  An update that
  replaces nothing cannot write its record and is rolled back although nothing failed: with
  every operation working and no file named twice it is applied if and only if some listed
  file was installed before [`FreshInstall`, against `SecondInstall`].
- While routed, a device the user picks survives the restore if and only if it is not the
  routed one, or is the one recorded (`UserChoiceSurvivesUnlessRouted`)
  [`TheRoutedDeviceChosen`]; overwriting a preference is safe if and only if the recorded
  value is still the user's, so a change made between the reading and the writing is lost
  (`RoutingIsSafeIffRecordIsFresh`) [`AChoiceBetweenReadingAndWriting`].
- Two release ids lead to one directory if and only if they agree but for letter case and the
  dots they end with (`IdsShareADirectoryIff`), and an id may end in dots.  Staging therefore
  returns the archive's own release if and only if no other release is in that directory
  (`StagedIsOwnIff`); `DownloadAsync` compares the ids afterwards and refuses what came back
  [`DottedId`].
- `Initialize` survives an unreadable active-release file but not one that is JSON of another
  shape, and it needs the release in the bundled id's directory, if there is one, to carry
  that id in that letter case, dots at its end aside (`CanInitialize`) [`MisshapenPointer`].
- A `snapshot.json` cut short while it was written makes the recovery of `UpdateAsync` stop:
  nothing is lost, but the old release is not started again [`CutMarker`].
- A plan whose shell archive does not carry the identity the catalog announces launches the
  installer at every start, for ever (`PlanEndsIffIdentityCarried`) [`ArchiveOfAnotherBuild`].
  More generally a check after the plan's starts finds nothing to do if and only if every
  archive that was due carried the id announced for it (`NothingDueIff`).
  A start whose worker cannot read its request, or whose rename fails, leaves the plan in
  place and is repeated.
- The documents of the bucket stay truthful if and only if no object key they name is reused
  for other bytes (`UploadKeepsConsistencyIff`) [`ReusedKey`].
- A check stores each archive under its id.  What its plan names is verified if and only if
  no two different archives share a file (`VerifiedIffApart`), which only the QQ and the ASR
  installer can, under ids that agree but for letter case (`ApartIff`) [`SharedFile`]; the
  worker verifies again, so such a plan is set aside rather than installed.
- A refresh misses nothing if and only if what was written since the last one fits the queue
  [`LinesBetweenTwoRefreshes`].  A line is always kept when it is written, whatever its length,
  unless its source and stream names fill the log (`LineIsKept` is exact) [`OverlongSource`].
- `copy_cxx_string` accepts the long empty string and lengths up to 1 MiB, which
  `read_remote_string` rejects (`ReadersAgree` is exact) [`LongEmptyString`].
- The timeline has a hole, an overlap or a segment without an end if and only if a call
  without a readable time took time [`CallWithoutATime`].
- A plain string normalises to itself the second time if and only if, stripped, it has no
  blank line: the first pass accepts blank lines in strings, the second refuses them in
  segments [`BlankLineInAString`].
- Chat pages merged in different orders agree if and only if the last record of every id
  agrees [`PagesThatDisagree`].

## Model

| member | source | states |
|---|---|---|
| Paths.SafeNameStaysBelow | desktop/Momoi.Desktop/ComponentUpdateWorker.cs:253-255 | device names and short names aside, a name that passes the check opens the file its own components spell, strictly below the directory it is combined with |
| Paths.SafeNamesCollideOnlyByCase | desktop/Momoi.Update/ReleaseStore.cs:221-225 | device names and short names aside, two accepted names open one file if and only if they differ in letter case alone |
| Paths.TailIsSafe | desktop/Momoi.Desktop/ComponentUpdateWorker.cs:269 | a safe name stays safe, in the same directory, when a tag is appended to it |
| Paths.FoldedIsSafe | desktop/Momoi.Desktop/ComponentUpdateWorker.cs:128-131 | whether a name is accepted does not depend on its letter case, so a dictionary that ignores case is safe to look it up in |
| ShellApply.UndoLeaves | desktop/Momoi.Desktop/ComponentUpdateWorker.cs:283-285 | walking the list of changes backwards leaves every file as it was before the earliest change to it, also when a file was changed several times |
| ShellApply.UndoRestores | desktop/Momoi.Desktop/ComponentUpdateWorker.cs:262-285 | from any state the list accounts for, the walk restores the content or the absence of every file outside the update's own scratch files |
| ShellApply.OwnLayoutIsSound | desktop/Momoi.Desktop/ComponentUpdateWorker.cs:258-272 | the code's own backup directory, and its temporaries beside their targets, meet all that the replacement needs as soon as the tags are new |
| ShellApply.ProgressMade | desktop/Momoi.Desktop/ComponentUpdateWorker.cs:262-276 | one replacement keeps the loop's account: saved copies still there, every difference listed, payloads in place |
| ShellApply.RecordSpoilsItsTwin | desktop/Momoi.Desktop/ComponentUpdateWorker.cs:278-285 | a torn record spoils the walk back if and only if a file with the record's own name had been replaced and differed |
| ShellApply.UndoAfterRecord | desktop/Momoi.Desktop/ComponentUpdateWorker.cs:278-285 | after a failed record write every file but the one with the record's name is still restored |
| ShellApply.StillRecoverable | desktop/Momoi.Desktop/ComponentUpdateWorker.cs:280-287 | however many undo steps fail, each replaced file survives in place or in the backup, and only targets and scratch files differ |
| ShellApply.BackupIffReplaces | desktop/Momoi.Desktop/ComponentUpdateWorker.cs:267-278 | the directory the record goes to exists if and only if some listed file was installed before |
| ShellApply.CheckSources | desktop/Momoi.Desktop/ComponentUpdateWorker.cs:250-257 | accepts if and only if every listed name is safe, outside the user's directories, present and of the listed hash |
| ShellApply.ReplaceOne | desktop/Momoi.Desktop/ComponentUpdateWorker.cs:264-276 | all of one replacement or none of it outside the backup and the temporary file; it is done only if no operation failed, and the temporary file stays behind only after a second failure |
| ShellApply.UndoChanges | desktop/Momoi.Desktop/ComponentUpdateWorker.cs:282-287 | every change of the list is undone or tried, last one first, and what is reported is the number of steps the disk refused; a file whose earliest change had its step obliged is as it was, whatever became of the other steps; files never changed stay as they are |
| ShellApply.RollBack | desktop/Momoi.Desktop/ComponentUpdateWorker.cs:280-287 | the catch block reports exactly the steps the disk refused; with none refused every file is back, but for the one with the record's name once the record's write was begun; nothing else is lost in any case, and the backup holds only copies of installed files |
| ShellApply.WriteRecord | desktop/Momoi.Desktop/ComponentUpdateWorker.cs:278 | the record lists every change; it is tried if and only if there is a backup directory, and then fails only if the disk refuses it; where it is not written the list still undoes everything but, once its write was begun, the file with its name |
| ShellApply.ApplyShell | desktop/Momoi.Desktop/ComponentUpdateWorker.cs:245-289 | rejected untouched, or applied with every target holding its payload and a record of every change, or rolled back; applied only if no operation failed; where no file is named twice and something installed is replaced, rolled back only for a failure of the disk, and every step not undone and every file left behind takes one failure more, so that after a single failure everything is back; the file with the record's name is the exception once the record's write was begun; however it ends, and wherever it dies, each installed file is in place or in the backup, with the same exception |
| ShellPackages.CountingCovers | desktop/Momoi.Desktop/ComponentUpdateWorker.cs:119-140 | comparing two counts decides whether every listed file was in the archive |
| ShellPackages.UnpackedIsChecked | desktop/Momoi.Desktop/ComponentUpdateWorker.cs:134-138 | what was extracted passes every check of the replacement, under the manifest's spelling of each name |
| ShellPackages.ExtractShell | desktop/Momoi.Desktop/ComponentUpdateWorker.cs:112-142 | writes only below the package; success means the archive is exactly what its manifest lists, each file in place; an archive that is, and in which no file lies below another, is refused only for a failure of the disk |
| ShellPackages.OwnLayoutIsPrepared | desktop/Momoi.Desktop/ComponentUpdateWorker.cs:207-210 | new directories among the user data and new tags are all an update needs, whatever files the archive lists |
| ShellPackages.InstallShell | desktop/Momoi.Desktop/ComponentUpdateWorker.cs:207-212 | an archive is rejected by the extraction or not at all, and one that can be extracted only for a failure of the disk; applied, every listed file is installed with its listed hash and nothing else but backup and package differs; rolled back, every step not undone takes a failure, besides the one that caused it where something installed is replaced, and with none everything but backup and package is as it was |
| AudioRoute.EventKeepsSettled | desktop/Momoi.Desktop/ApplicationAudioRoute.cs:52-125 | each smallest change keeps the invariant that restoring now gives the user's own values |
| AudioRoute.HistoryIsSettled | desktop/Momoi.Desktop/ApplicationAudioRoute.cs:52-125 | so does every history of routing, crashing, rerouting and closing; with no backup left the preferences are the user's |
| AudioRoute.RecordedValuesAreTheUsers | desktop/Momoi.Desktop/ApplicationAudioRoute.cs:94-107 | a recorded previous value is the user's own, never one the program wrote |
| AudioRoute.UserChoiceSurvivesUnlessRouted | desktop/Momoi.Desktop/ApplicationAudioRoute.cs:51 | exactly which choices of the user survive the restore |
| AudioRoute.RoutingIsSafeIffRecordIsFresh | desktop/Momoi.Desktop/ApplicationAudioRoute.cs:107-112 | overwriting a preference is safe if and only if its record is still the user's value |
| AudioRoute.WantedByFlow | desktop/Momoi.Desktop/ApplicationAudioRoute.cs:67-96 | every slot of playing gets the chosen output and every slot of recording the chosen input, each packed as an endpoint of its own flow |
| AudioRoute.ApplicationAudioRoute.RestoreOne | desktop/Momoi.Desktop/ApplicationAudioRoute.cs:56-61 | a preference is put back only where it still has the routed value; the first step that fails ends it, and the next item is reached only if reading back agrees |
| AudioRoute.ApplicationAudioRoute.Restore | desktop/Momoi.Desktop/ApplicationAudioRoute.cs:52-64 | completed, all six preferences are the user's and the backup is gone; otherwise the backup is still there, some step was not done, and the outcome is that of the last step |
| AudioRoute.ApplicationAudioRoute.RouteAll | desktop/Momoi.Desktop/ApplicationAudioRoute.cs:108-116 | all six are routed, or some step was not done; if it is the only one and not the end of the process, nothing is routed and nothing recorded |
| AudioRoute.ApplicationAudioRoute.TakeOriginals | desktop/Momoi.Desktop/ApplicationAudioRoute.cs:94-106 | values are recorded only after an earlier backup was restored and they were read again; a process that does not accept the interface is passed over untouched |
| AudioRoute.ApplicationAudioRoute.Ensure | desktop/Momoi.Desktop/ApplicationAudioRoute.cs:65-125 | true means all six preferences are the wanted ones, for these devices, and what is announced as ready is what is routed; endpoints of the wrong direction change nothing, and no process but the private one is touched; a route that is still in place is noticed; a single failure leaves the user's devices or the wanted ones; without failures it routes whenever the private process runs |
| AudioRoute.ApplicationAudioRoute.Close | desktop/Momoi.Desktop/ApplicationAudioRoute.cs:126-143 | done means the user's values are back and no backup is left; no process but the private one is touched; it throws only for a step that was not done, and without failures it is done whenever the private process runs |
| Downloader.ServedFile | desktop/Momoi.Update/ArtifactDownloader.cs:51-91 | the exact partial file one answer of a fixed content leaves, with or without its range honoured |
| Downloader.AttemptKeepsPrefix | desktop/Momoi.Update/ArtifactDownloader.cs:51-100 | a partial file that is a prefix of the content stays one, and shrinks only when a range is ignored |
| Downloader.EveryRunKeepsPrefix | desktop/Momoi.Update/ArtifactDownloader.cs:44-103 | the same through any series of attempts, calls and cancellations, never beyond the signed size |
| Downloader.AcceptedIsVerified | desktop/Momoi.Update/ArtifactDownloader.cs:69-92 | against any server, accepted content has the signed size and hash |
| Downloader.OnlyPromisedIsKept | desktop/Momoi.Update/ArtifactDownloader.cs:58-83 | what an answer leaves was promised by its status, range and length, and is what it was asked to continue, or nothing, with the start of its body |
| Downloader.TwoAttemptsHeal | desktop/Momoi.Update/ArtifactDownloader.cs:46-102 | from any partial file whatever, two complete answers are enough |
| Downloader.ArtifactDownloader.Receive | desktop/Momoi.Update/ArtifactDownloader.cs:75-85 | the reading loop appends exactly the reads before the end, and stops before the signed size is passed |
| Downloader.ArtifactDownloader.RunAttempt | desktop/Momoi.Update/ArtifactDownloader.cs:49-98 | one attempt on the files is one attempt on values, asking for the range the partial file needs |
| Downloader.ArtifactDownloader.TakeLocal | desktop/Momoi.Update/ArtifactDownloader.cs:31-43 | a local candidate is used only through a verified copy in the cache; otherwise the cache is empty |
| Downloader.ArtifactDownloader.Fetch | desktop/Momoi.Update/ArtifactDownloader.cs:46-103 | the loop of three attempts: what of it holds for every server, and which answers are enough |
| Downloader.ArtifactDownloader.DownloadAsync | desktop/Momoi.Update/ArtifactDownloader.cs:21-104 | a returned path is verified whatever the server; verified files are not fetched again; it gives up only after three requests, and against the signed content one complete answer among the three is enough from a partial file that starts it; it ends early only for a cancellation, after which nothing is asked for; the prefix invariant; two attempts heal any state |
| ReleaseStores.WindowsIsSane | desktop/Momoi.Update/ReleaseStore.cs:168-177 | device names and short names aside, accepted names meet the laws the store relies on: one file per name, none of them the manifest, and whatever has the full path of an id leads where the id leads |
| ReleaseStores.IdsShareADirectoryIff | desktop/Momoi.Update/ReleaseStore.cs:25-79 | device names and short names aside, two ids lead to one directory if and only if they agree but for letter case and the dots they end with |
| ReleaseStores.StagedIsOwnIff | desktop/Momoi.Update/ReleaseStore.cs:181-185 | what staging returns is the archive's own release if and only if no release of another manifest was in its directory; that one's id leads there too |
| ReleaseStores.UnpackAccepts | desktop/Momoi.Update/ReleaseStore.cs:164-179 | the extraction loop succeeds if and only if the archive is acceptable: listed names, no link, no two names alike, no file below another, within the size limit; and then with the tree its entries spell |
| ReleaseStores.UnpackedIsExact | desktop/Momoi.Update/ReleaseStore.cs:164-204 | a validated tree has a file for each listed name with its hash, no other, and distinct names in distinct files |
| ReleaseStores.StagedIsExact | desktop/Momoi.Update/ReleaseStore.cs:147-204 | a staged release is exactly the manifest's files, its hashes, and the manifest itself; it is of the known format and for the installed runtime, and has the program to start |
| ReleaseStores.ReleaseStore.Extract | desktop/Momoi.Update/ReleaseStore.cs:160-179 | the loop over the entries is the one on values, and touches only its staging directory |
| ReleaseStores.ReleaseStore.StageArchive | desktop/Momoi.Update/ReleaseStore.cs:147-188 | success puts exactly the archive's tree in the directory its id leads to unless a valid release is there, which is then returned; failure leaves the releases as they were; pointer and existing releases never change |
| ReleaseStores.ReleaseStore.Place | desktop/Momoi.Update/ReleaseStore.cs:181-185 | a release in the directory the id leads to is never replaced: it wins if it validates, and the staging fails if it does not |
| ReleaseStores.ReleaseStore.CopyTree | desktop/Momoi.Update/ReleaseStore.cs:227-232 | the copy is complete or was not finished, and nothing else changes |
| ReleaseStores.ReleaseStore.Seed | desktop/Momoi.Update/ReleaseStore.cs:42-55 | the bundled release becomes a complete release in the directory its id leads to, or none; the copy beside it stays behind only if the process died or deleting it failed too |
| ReleaseStores.ReleaseStore.Activate | desktop/Momoi.Update/ReleaseStore.cs:82-95 | the pointer is the old one or the new one; the new one only for a release of this store that validates and whose directory has the full path of its manifest's id |
| ReleaseStores.ReleaseStore.GetRelease | desktop/Momoi.Update/ReleaseStore.cs:76-80 | a release is returned if and only if its id is safe and the tree in the directory that id leads to validates for the installed runtime |
| ReleaseStores.ReleaseStore.FollowPointer | desktop/Momoi.Update/ReleaseStore.cs:56-70 | the release the active-release file leads to, or that file put aside; JSON of another shape escapes the handler |
| ReleaseStores.ReleaseStore.FallBack | desktop/Momoi.Update/ReleaseStore.cs:71-73 | the release in the bundled id's directory is activated, exactly if it validates and its own id has the same full path |
| ReleaseStores.ReleaseStore.Initialize | desktop/Momoi.Update/ReleaseStore.cs:40-74 | every release stays complete and none is lost; an active-release file that leads to a valid release stays unless a step failed, and any other is put aside, not lost; the release returned is the one the file then leads to and validates for the installed runtime; without failures it succeeds exactly when `CanInitialize` holds |
| Snapshots.RestoreGivesBack | desktop/python/momoi_desktop/snapshot.py:29-45 | a restore gives back content or absence of each covered file and the database's rows, whatever log lies beside it, and touches nothing else |
| Snapshots.RestoreAfterAnything | desktop/python/momoi_desktop/snapshot.py:29-45 | any later changes outside the snapshot directory are undone |
| Snapshots.StaleLogMatters | desktop/python/momoi_desktop/snapshot.py:39-40 | without removing the old log the rows come back if and only if replaying it over them changes nothing |
| Snapshots.BackUp | desktop/python/momoi_desktop/snapshot.py:23-25 | the copy has the source's rows, log included, exactly if no operation failed, and the source's rows stay what they were |
| Snapshots.Snapshot | desktop/python/momoi_desktop/snapshot.py:11-26 | success means a complete snapshot of the data and that no operation failed; failure means no readable marker, and an operation that failed unless there was no data or no new directory; the data itself never changes |
| Snapshots.Restore | desktop/python/momoi_desktop/snapshot.py:29-45 | against a complete snapshot it is done exactly if no operation failed, and then everything is back; not done, the snapshot is still complete; without a readable marker nothing is touched |
| CodeSwitch.App.Switch | desktop/Momoi.Desktop/App.xaml.cs:439-454 | success runs the new release, with bridge and panel, on the data as it was, and takes every step to have worked; any failure, also one that comes after the snapshot was complete, leaves a state the recovery can start from |
| CodeSwitch.App.Recover | desktop/Momoi.Desktop/App.xaml.cs:455-465 | completed, code and data are the previous ones and nothing runs; not completed, the data is there or in the snapshot, and a step of its own failed unless the marker was cut short |
| CodeSwitch.App.RollBack | desktop/Momoi.Desktop/App.xaml.cs:455-476 | after the recovery it is the previous release that is started, on the restored data, unless the user is leaving; it is not restarted only for a step that failed |
| CodeSwitch.App.OneFailureIsSurvived | desktop/Momoi.Desktop/App.xaml.cs:436-476 | if a single step fails once the services are stopped, and it does not cut the marker, the old release is running again on the data as they were |
| CodeSwitch.App.UpdateAsync | desktop/Momoi.Desktop/App.xaml.cs:396-488 | skipped exactly when nothing is due or possible; otherwise updated to the new release, or the old pointer, release and data handed back and the old release started on them, or nothing lost; stopped before it began exactly if the services do not stop; for a valid release and readable data a rollback takes one failure, and one that does not end with the old release running, or a recovery that does not complete, takes two, unless the user is leaving or the first one cut the marker; the busy flag is cleared; updated only if nothing failed |
| PendingPlans.RestartProgresses | desktop/Momoi.Desktop/App.Updates.cs:158-195 | every start that is not cut off leaves fewer components pending or no plan; one that is cut off leaves no more |
| PendingPlans.LaunchesAreBounded | desktop/Momoi.Desktop/App.Updates.cs:172-181 | a plan launches at most one installer for each pending component and one more for each start cut off |
| PendingPlans.AtMostThreeLaunches | desktop/Momoi.Desktop/App.Updates.cs:158-195 | an uninterrupted plan launches at most three installers and is over after four starts |
| PendingPlans.PlanEnds | desktop/Momoi.Desktop/App.Updates.cs:158-195 | after as many uninterrupted starts as the measure says no plan is left |
| PendingPlans.LaunchesAreOrdered | desktop/Momoi.Desktop/App.Updates.cs:176 | in every run installers are launched in the order shell, QQ, ASR |
| PendingPlans.CodeComesLast | desktop/Momoi.Desktop/App.Updates.cs:172-187 | the release changes only when no component is pending; a plan that goes without a failure leaves nothing pending |
| PendingPlans.WrongIdentityLoops | desktop/Momoi.Desktop/App.Updates.cs:166-180 | a shell archive with another identity than the catalog's is installed at every start |
| PendingPlans.PlanEndsIffIdentityCarried | desktop/Momoi.Desktop/App.Updates.cs:158-195 | with every start finishing, a plan ends if and only if a due shell archive carries the catalog's identity |
| PendingPlans.VersionsAreOrdered | desktop/Momoi.Desktop/App.Updates.cs:79-80 | versions are totally ordered, the major number first and the patch last |
| PendingPlans.Desktop.SetAside | desktop/Momoi.Desktop/ComponentUpdateWorker.cs:89-95 | the plan is renamed, or stays if the rename fails |
| PendingPlans.Desktop.Elevate | desktop/Momoi.Desktop/ComponentUpdateWorker.cs:198-236 | the component is installed if and only if the archive was verified again and the installer worked; success means also that it has the announced id; a failure may come before or after it is installed |
| PendingPlans.Desktop.Work | desktop/Momoi.Desktop/ComponentUpdateWorker.cs:44-88 | success means that every step worked and the component is installed, compared and marked; the first step that fails is the last; the QQ marker is written only when the ids agree |
| PendingPlans.Desktop.RunWorker | desktop/Momoi.Desktop/ComponentUpdateWorker.cs:37-102 | how the worker's run ends follows from its steps: a failure sets the plan aside, and the plan stays only if the machine stops, the request cannot be read or the rename fails |
| PendingPlans.Desktop.ResumeUpdates | desktop/Momoi.Desktop/App.Updates.cs:158-195 | one start on the program's files is one start on values, whose ending follows from its steps; uninterrupted it finishes a component, finishes the code step or sets the plan aside, and without failures it makes the step that is next; over all starts at most three installers are launched and one more for each start cut off |
| UpdateChecks.VerifiedIffApart | desktop/Momoi.Desktop/App.Updates.cs:127-131 | what the downloads left is verified, for every archive the plan names, if and only if no two different archives share a file |
| UpdateChecks.ApartIff | desktop/Momoi.Update/UpdateCatalog.cs:74-94 | only the two installers can share a file, exactly under ids that agree but for letter case |
| UpdateChecks.Updates.Receive | desktop/Momoi.Update/UpdateCatalog.cs:80-93 | the reading loop yields the signed size and hash or fails, and does not fail on the signed content |
| UpdateChecks.Updates.Prepare | desktop/Momoi.Desktop/App.Updates.cs:122-133 | a plan is written only when every archive it names was downloaded and its release staged, and every step worked; until then the old plan and its files are untouched |
| UpdateChecks.Updates.Check | desktop/Momoi.Desktop/App.Updates.cs:52-148 | whatever fails, the plan on disk is the old one or a complete new one, of what was due by two documents of one version and for the runtime installed; without the user's consent nothing is downloaded, staged, planned or started; it fails only for a step that failed or for documents that do not go together; undisturbed it ends exactly as documents, installation and user say |
| UpdateChecks.DueIsPending | desktop/Momoi.Desktop/App.Updates.cs:80-170 | what the check finds due is what the next start finds pending, by their different tests |
| UpdateChecks.UnwantedStaysAway | desktop/Momoi.Desktop/App.Updates.cs:87-195 | a recogniser that is neither installed nor selected is not installed by any plan, whatever the catalog offers and however the starts end |
| UpdateChecks.MismatchStaysDue | desktop/Momoi.Desktop/App.Updates.cs:79-181 | a due component whose archive carries another id is due again after any starts, however they end |
| UpdateChecks.NothingDueIff | desktop/Momoi.Desktop/App.Updates.cs:79-195 | after enough starts without a failure the next check finds nothing to do if and only if every archive due carried the id announced for it |
| UpdateChecks.FourStartsUpdate | desktop/Momoi.Desktop/App.Updates.cs:158-195 | four starts are enough, and launch the installers of what was due, in order |
| Publishing.UploadKeepsConsistencyIff | packaging/windows/publish_cos.py:111-119 | storing an object keeps the documents truthful if and only if none of them expects other bytes under its key |
| Publishing.AcceptedPlanIsServed | desktop/Momoi.Desktop/App.Updates.cs:77-90 | a plan accepted from two fetches at different moments has one version, and everything it names is served from then on, at any point of any run of the publisher |
| Publishing.UploadIsTruthful | packaging/windows/publish_cos.py:45-52 | whatever an upload leaves, every reference of the documents is served |
| Publishing.Publisher.Upload | packaging/windows/publish_cos.py:45-52 | every state an upload makes is truthful, also when it reports failure too late or stores other bytes |
| Publishing.Publisher.VerifyRemote | packaging/windows/publish_cos.py:55-66 | the size and digest accumulated over the pieces of the response agree with the local file's only if the stored bytes are the local ones |
| Publishing.Publisher.SyncCatalog | packaging/windows/publish_cos.py:69-108 | done, the catalog has the new version and the components it had; it moves only after every component was verified, nothing else changes, and the catalog never names a missing object |
| Publishing.Publisher.Publish | packaging/windows/publish_cos.py:111-129 | every state on the way is truthful; a state that newly announces the release has the catalog in step; done, every step was reported to work, and a client accepts what is announced: this release's id and version, served as these archive bytes, with the components announced before |
| LiveLogs.TrimIsLongestFit | desktop/Momoi.Desktop/LiveLog.cs:25-26 | the dequeue loop keeps the longest run of latest entries within both bounds |
| LiveLogs.TrimIncrementally | desktop/Momoi.Desktop/LiveLog.cs:23-26 | trimming at every write is trimming the whole stream once |
| LiveLogs.NewestIsKept | desktop/Momoi.Desktop/LiveLog.cs:23-26 | an entry survives its own write if and only if it fits the bound |
| LiveLogs.FormatShows | desktop/Momoi.Desktop/LiveLog.cs:17-20 | a text shows its stamp, its source and stream, and the line whole, or its first 8000 characters and the mark of the cut |
| LiveLogs.LineIsKept | desktop/Momoi.Desktop/LiveLog.cs:17-28 | a line is kept when it is written if and only if stamp, source and stream names leave room for what is left of it after the cut, which they do below some 490000 characters |
| LiveLogs.StartAdvances | desktop/Momoi.Desktop/LiveLog.cs:23-26 | the oldest entry still queued never becomes older |
| LiveLogs.LiveLog.Write | desktop/Momoi.Desktop/LiveLog.cs:17-28 | the queue is the trimmed stream, numbered consecutively up to the counter, with its length in `characters`; the line just written is in it, whatever its length, exactly if the frame around it leaves it room |
| LiveLogs.LiveLog.ReadAfter | desktop/Momoi.Desktop/LiveLog.cs:30-33 | exactly the surviving entries after the cursor, in order, with their numbers |
| LiveLogs.DisplayIsLastLines | desktop/Momoi.Desktop/LogWindow.cs:83-89 | the text shown is the longest suffix shorter than the limit that starts on a fresh line |
| LiveLogs.RefreshIsComplete | desktop/Momoi.Desktop/LogWindow.cs:78-82 | after a refresh every entry still queued and written since the window was cleared has been given |
| LiveLogs.StepIsFaithful | desktop/Momoi.Desktop/LogWindow.cs:76-92 | every write, refresh and clear keeps that agreement, the order, and what the window shows |
| LiveLogs.EveryRunIsFaithful | desktop/Momoi.Desktop/LogWindow.cs:76-92 | in every interleaving each surviving entry up to the cursor is given exactly once and in order, and the window shows all that was given since it was cleared, or its end once that passes the limit |
| LiveLogs.NothingMissedIffItFits | desktop/Momoi.Desktop/LogWindow.cs:78-79 | a refresh misses nothing if and only if what was written since the last one fits the queue |
| LiveLogs.LogWindow.Refresh | desktop/Momoi.Desktop/LogWindow.cs:76-92 | one refresh on the window is one step on values |
| LiveLogs.LogWindow.Clear | desktop/Momoi.Desktop/LogWindow.cs:54 | clearing moves the cursor to the end and empties the window |
| CxxStrings.DecodeEncode | infra/snowluma-call/native/cxx_string.h:22-24 | a number stored little-endian and read back is the number |
| CxxStrings.RecordRoundTrip | infra/snowluma-call/native/cxx_string.h:11-44 | the view of an initialised record is the string it was made from, across the switch of layouts, exactly where the view admits it |
| CxxStrings.ReadersAgree | infra/snowluma-call/native/session_hook.c:153-259 | the bounded reader is the copier restricted to what fits and to 1 to 4096 bytes for long records |
| CxxStrings.StringSurvives | infra/snowluma-call/native/session_hook.c:153-168 | bytes stored in memory, recorded and read remotely come back if and only if they fit |
| CxxStrings.CxxStringInit | infra/snowluma-call/native/cxx_string.h:31-44 | the bytes of the record, written in place |
| CxxStrings.CxxStringView | infra/snowluma-call/native/cxx_string.h:11-29 | kind, pointer and length, and the short bytes with their terminator |
| CxxStrings.ReadRemoteString | infra/snowluma-call/native/session_hook.c:153-168 | what the buffer holds on success, and exactly when it succeeds |
| CxxStrings.CopyCxxString | infra/snowluma-call/native/session_hook.c:235-259 | a fresh terminated copy, exactly when the record and the allocation admit it |
| Timelines.SortSorts | web/src/main.jsx:2348-2351 | the calls in order of time and round, none lost |
| Timelines.GroupIsOrdered | web/src/main.jsx:2347-2380 | a group's steps are ordered by end and none starts before the group |
| Timelines.GroupStartsFirst | web/src/main.jsx:2369-2371 | a group starts with the first of its inputs and requests whose time is known, or at zero if there is none |
| Timelines.TrajectorySegments | web/src/main.jsx:2674-2691 | the loop gives the segments defined step by step |
| Timelines.EachSegmentTells | web/src/main.jsx:2674-2691 | every segment drawn is some request's own time, the time before it, as its predecessor's tools if that had any and else as waiting, or the whole time of a request without a duration |
| Timelines.SegmentsTile | web/src/main.jsx:2674-2691 | the segments tile the time up to the cursor if and only if no step without an end was drawn, even where requests overlap |
| Timelines.TotalsAddUp | web/src/main.jsx:2701 | the totals of the four kinds add up to the time tiled |
| Timelines.ModelTimeIsClipped | web/src/main.jsx:2681-2684 | the time shown as the model's is never more than the time requested |
| Timelines.ContinuousIff | web/src/main.jsx:2674-2691 | some stretch of time is tiled from the group's start if and only if no step without an end is drawn |
| Timelines.TimelineTiles | web/src/main.jsx:2347-2701 | after the epoch the timeline is continuous if and only if no call without a readable time took time; it then covers exactly the span from the group's start to the last end, and so do the totals |
| Grouping.GroupsAreSendable | src/momoi/channel/__init__.py:103-114 | grouping conserves the list, mixes nothing with an exclusive element, and makes no needless cut |
| Grouping.GroupingIsUnique | src/momoi/channel/__init__.py:103-114 | no other grouping does |
| Channels.SplitExclusiveMedia | src/momoi/channel/__init__.py:95-115 | the early returns and the loop give the messages of that grouping |
| Channels.SplitConserves | src/momoi/channel/__init__.py:95-115 | what is sent concatenates to the original segments and is the one sendable grouping of them |
| Channels.SplitsToItself | src/momoi/channel/__init__.py:95-115 | every message that splitting gives splits to itself |
| Channels.StripTrims | src/momoi/channel/__init__.py:120-124 | stripping takes white space off both ends and nothing else, until there is none to take |
| Channels.StripAddsNoBlankLine | src/momoi/channel/__init__.py:200-201 | stripping makes no blank line |
| Channels.EachReadsEach | src/momoi/channel/__init__.py:169-197 | elements are read one by one, and the first that cannot be read decides the error |
| Channels.RefusedIffSuffers | src/momoi/channel/__init__.py:166-197 | a segment is refused for a problem exactly if it has that one, and accepted exactly if it has none |
| Channels.SegmentIsKept | src/momoi/channel/__init__.py:170-196 | an accepted segment keeps its type, how it is to be sent, and every field of its data, but that the text of a text segment is stripped |
| Channels.NodeIsKept | src/momoi/channel/__init__.py:204-223 | an accepted forward node keeps its user id, or gets that of nobody, its nickname, stripped, and its content segment by segment |
| Channels.NormalizeKeeps | src/momoi/channel/__init__.py:118-142 | an accepted message or forward has as many segments or nodes as it was given, each of them the kept one of the same place; a string becomes one text segment |
| Channels.AcceptedIff | src/momoi/channel/__init__.py:118-142 | which strings and objects are accepted, by what is in them |
| Channels.NormalizeSegmentList | src/momoi/channel/__init__.py:166-197 | the loop normalises each segment or stops at the first problem |
| Channels.SegmentTwice | src/momoi/channel/__init__.py:170-196 | an accepted segment is in normal form and stays exclusive or not |
| Channels.NodeTwice | src/momoi/channel/__init__.py:204-223 | an accepted forward node is in normal form |
| Channels.ObjectTwice | src/momoi/channel/__init__.py:118-142 | an accepted object normalises to itself the second time |
| Channels.StringTwice | src/momoi/channel/__init__.py:118-125 | an accepted string does if and only if, stripped, it has no blank line |
| Channels.PartsStay | src/momoi/runtime/parsing.py:67-84 | every part of a normalised and split message reaches the queue's own normalisation unchanged |
| Channels.TextPartAsString | src/momoi/runtime/parsing.py:73-81 | a text part passed on as a plain string normalises to the same text, and to the same part if and only if nothing else was in its data |
| ChatMerges.MergeMessages | web/src/Chat.jsx:5-9 | the map filled in order and sorted |
| ChatMerges.BeforeByFirstDifference | web/src/Chat.jsx:8 | ids are compared as strings: the smaller unit at the first difference comes first, and a prefix before its extensions |
| ChatMerges.SortedIsUnique | web/src/Chat.jsx:8 | a list strictly sorted by time and id is determined by its records |
| ChatMerges.LaterBelow | web/src/Chat.jsx:8 | down the list records become later, and records of one time follow by id |
| ChatMerges.MergeShows | web/src/Chat.jsx:5-9 | a merge is strictly sorted and holds exactly the last record of every id |
| ChatMerges.ShownIdsAreUnique | web/src/Chat.jsx:5-9 | ids are unique and every id received is shown |
| ChatMerges.ScreenShowsLatest | web/src/Chat.jsx:58-96 | merging pages one after another shows the last record of every id received so far |
| ChatMerges.PagesConvergeIff | web/src/Chat.jsx:58-96 | two runs of pages end alike if and only if they agree on the last record of every id |
| ChatMerges.PagesConverge | web/src/Chat.jsx:58-96 | where records of one id agree, order and repetition of pages do not matter and everything received is shown |
| Counterexamples.BlankLineInAString | src/momoi/channel/__init__.py:118-125 | the string a, empty line, b is accepted and the message it becomes is refused |
| Counterexamples.CallWithoutATime | web/src/main.jsx:2681-2684 | one call of a second without a time leaves no continuous timeline |
| Counterexamples.ArchiveOfAnotherBuild | desktop/Momoi.Desktop/App.Updates.cs:166-176 | a shell archive of build a for an announced build b is installed at each of n starts |
| Counterexamples.ReusedKey | packaging/windows/publish_cos.py:118 | one other byte under the announced archive's key makes the latest document false |
| Counterexamples.TheRoutedDeviceChosen | desktop/Momoi.Desktop/ApplicationAudioRoute.cs:51 | the user picks the routed device, and a restore would take it away |
| Counterexamples.AChoiceBetweenReadingAndWriting | desktop/Momoi.Desktop/ApplicationAudioRoute.cs:107-112 | a choice made after the value was recorded is lost by the overwriting |
| Counterexamples.OverlongSource | desktop/Momoi.Desktop/LiveLog.cs:17-28 | a source name of half a million characters pushes out its own line |
| Counterexamples.LinesBetweenTwoRefreshes | desktop/Momoi.Desktop/LogWindow.cs:78 | of 3001 formatted lines between two refreshes the window is not given all |
| Counterexamples.LongEmptyString | infra/snowluma-call/native/session_hook.c:246-258 | the copier returns the empty string for a long record of length zero that the reader rejects |
| Counterexamples.PagesThatDisagree | web/src/Chat.jsx:5-9 | two records of one id, merged in either order, show different lists |
| Counterexamples.ReplacedBackupJson | desktop/Momoi.Desktop/ComponentUpdateWorker.cs:278-285 | a replaced file named backup.json is lost when the record is cut short |
| Counterexamples.FreshInstall | desktop/Momoi.Desktop/ComponentUpdateWorker.cs:267-288 | an update of one file that was not installed is rolled back though nothing fails; no step fails to be undone and the disk is what it was |
| Counterexamples.SecondInstall | desktop/Momoi.Desktop/ComponentUpdateWorker.cs:245-279 | the same update over an installed file is applied |
| Counterexamples.ArchiveInstalls | desktop/Momoi.Desktop/ComponentUpdateWorker.cs:112-279 | from a concrete archive and disk, with nothing failing, the installed file is the one the archive holds |
| Counterexamples.SomeInstallationIsPrepared | desktop/Momoi.Desktop/ComponentUpdateWorker.cs:207-210 | an installation of one file is prepared for any archive of it |
| Counterexamples.BrokenDownload | desktop/Momoi.Update/ArtifactDownloader.cs:46-103 | a download whose first answer breaks off is resumed and completed |
| Counterexamples.CutMarker | desktop/Momoi.Desktop/App.xaml.cs:462-463 | with the snapshot's marker cut off the recovery does not complete though nothing fails |
| Counterexamples.UpdateWorks | desktop/Momoi.Desktop/App.xaml.cs:396-454 | from a concrete program and disk, with nothing failing, the update goes through |
| Counterexamples.UpdateFails | desktop/Momoi.Desktop/App.xaml.cs:455-476 | from the same program, with only the start of the new backend failing, the old release ends up running, with bridge and panel |
| Counterexamples.DiesAt | desktop/Momoi.Desktop/ComponentUpdateWorker.cs:245-289 | wherever the process dies in an update of one installed file, that file is in place or in the backup |
| Counterexamples.CheckBoth | desktop/Momoi.Desktop/App.Updates.cs:77-133 | a check that finds both installers due writes a plan, verified if and only if their ids differ |
| Counterexamples.SharedFile | desktop/Momoi.Desktop/App.Updates.cs:128-133 | with both installers under one id the plan names an archive that is not the one described |
| Counterexamples.DottedId | desktop/Momoi.Update/ReleaseStore.cs:181-183 | where 1.0 is in place, staging an archive of 1.0 with a dot at its end gives 1.0 back |
| Counterexamples.MisshapenPointer | desktop/Momoi.Update/ReleaseStore.cs:58-69 | a first start succeeds without an active-release file or with an unreadable one, and fails with one of another shape |

## Left out

- Signatures, hashes, JSON, ZIP and HTTP: hash, parser and field checks are arbitrary functions; the HTTP response is reduced to what the downloader branches on.
- Paths.SafeNameStaysBelow: knows no reserved device names (`nul`, `aux.py`), which the check admits and Windows does not treat as files, and no 8.3 short names.
- Paths.SafeNamesCollideOnlyByCase: the same; a short name is a second name of one file, which this statement and `WindowsIsSane` do not see.
- ReleaseStores.WindowsIsSane: the same.
- Disks keep files only: an operation refused because a file stands where a directory should be, or the reverse, is one of the operations that may fail; only within one archive, where it depends on nothing else, is it decided by the names.
- Letter case: the file system and the case-ignoring dictionaries are taken to compare names by one mapping of characters that keeps the separators apart from letters.
- Windows, WPF, process control and elevation: only whether a call works, fails or never returns.
- The release store's own `DownloadAsync`: a straight line of steps modelled elsewhere.
- UpdateChecks.Updates.Check: the full installer of a new runtime is downloaded and launched in two steps, without its file; prompts are one yes or no, and the partial file of a download is not tracked.
- ReleaseStores.IdsShareADirectoryIff: the id check also lets a line feed through at an id's end; Windows refuses such a name, which is one of the operations that may fail.
- ShellPackages.InstallShell: does not remove the verified package afterwards; that step touches nothing but the package.
- ShellApply.ApplyShell: the manifest arrives parsed; a manifest that cannot be read stops the code before anything is touched.
- AudioRoute.ApplicationAudioRoute.Ensure: a backup left by another program's path is excluded, and the user changes devices between calls, not during one; what a change during one would do is `RoutingIsSafeIffRecordIsFresh`.
- Downloader.ArtifactDownloader.DownloadAsync: deleting a file always works, and the signed size is positive, as the artifact's own validation demands.
- ReleaseStores.ReleaseStore.Activate: the temporary file beside the pointer is not tracked; a crash may leave one behind.
- CodeSwitch.App.UpdateAsync: the new release is already staged; two updates never overlap because of the busy flag, and a process that dies half way is not resumed by this code.
- PendingPlans.Desktop.ResumeUpdates: versions are parsed already, and the code update is reduced to whether it switches the release.
- Publishing.Publisher.Upload: a signature makes no document of damaged bytes, and storing the same bytes again under a key that has them is taken not to damage them.
- LiveLogs.LiveLog.Write: the counter of characters is unbounded; the lock makes each call one step.
- CxxStrings.CopyCxxString: another thread changing the memory between two reads of it.
- Timelines.TrajectorySegments: labels and keys, and floating-point rounding; times and durations are real numbers.
- Channels.SplitExclusiveMedia: segments that are not objects, or whose type cannot be hashed, on which the code raises.
- Channels.NodeTwice: `str` of a user id is an arbitrary function that keeps strings and makes nothing true empty.
- Channels.TextPartAsString: the queue's lookup of an emotion's image, which comes before normalising a string that names one.
- ChatMerges.MergeMessages: ids are strings.
- React rendering, settings, the dashboard service, supervision of the QQ and call processes, machine-code patching, and the packaging scripts other than the publisher.
