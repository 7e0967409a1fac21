# Backup module core, modelled in Dafny

This project models the decision and bookkeeping logic of the FreePBX backup
module (`Backup.class.php`) and the message cursor of its run page
(`views/run.php`, the `development/15.0` side). The files, the key/value
store, the crontab and the process table are plain values: maps and
sequences. The project proves properties of the model.

Modules:

- `Wrappers` holds `Option`.
- `PhpStrings` holds the PHP string built-ins the module relies on: `empty()`, `strpos`, `explode`, `trim`, `strtolower` and decimal rendering.
- `Files` is the filesystem as a map from path to bytes. `Shell` is `escapeshellarg` and the shell's reading of a quoted word.
- `Upload` is the chunked `uploadrestore` handler and its reassembly loop.
- `Launcher` covers `runRestore`/`runBackup`: the command lines, the log paths and the response.
- `StatusStream` is the `backupstatus`/`restorestatus` poll and a whole stream session.
- `Hooks` is `getHooks`. `Schedule` is `scheduleJobs` over a crontab.
- `Archive` is `determineBackupFileType`.
- `Ui` covers `getActionBar` and `ajaxRequest`.
- `BackupSettings` covers `getBackup` and `setModulesById`.
- `Storage` covers `getFSType` and `remoteToLocal`.
- `Dependencies` is `processDependencies`. `MessageCursor` is the run page's update callback.

Inputs the PHP code gets from its environment are parameters:

- the configuration values `AMPSBIN`, `ASTLOGDIR` and `ASTSPOOLDIR`;
- the generated transaction id;
- whether `posix_getpgid` finds the job;
- what the shell printed;
- the hook directory listing;
- `md5`.

A missing file read with `file_get_contents` is `None`, PHP's `false`, which the JSON responses carry as `false`. Where the code concatenates that value, tests it with `empty()`, or reads through a failed `fopen`, it is the empty string (`Files.Read`). The last case follows PHP 7, where `fread(false, …)` warns and returns null; PHP 8 throws a `TypeError` there instead.

## Model

| member | source | states |
|---|---|---|
| Upload.Head | Backup.class.php:319-320 | a chunk contributes a prefix of its bytes: all of them when it holds at most 2097152 bytes, and exactly the first 2097152 when longer |
| Upload.ChunkPathInjective | Backup.class.php:312-315 | different chunk indices of one upload are stored in different files |
| Upload.FinalIsNoChunk | Backup.class.php:305-313 | the reassembled archive is never one of the chunk files |
| Upload.Reassembled | Backup.class.php:316-327 | reassembly creates no file other than the archive |
| Upload.Reassemble | Backup.class.php:316-327 | the loop over indices 0..total-1 computes the reassembled files and the append/unlink trace; a non-positive total does nothing |
| Upload.ChunkUntouchedSoFar | Backup.class.php:317-326 | a chunk file is still as uploaded when the loop reaches it |
| Upload.ReassembledArchive | Backup.class.php:317-325 | afterwards the archive holds its previous content followed by each chunk's bytes in index order |
| Upload.ReassembledRemovesChunks | Backup.class.php:326 | no chunk file survives reassembly |
| Upload.ReassembledKeepsOthers | Backup.class.php:317-327 | every file other than the archive and the chunks is unchanged |
| Upload.TraceOrder | Backup.class.php:317-327 | chunk j is appended as operation 2j and unlinked as operation 2j+1: ascending order, each unlinked right after its append |
| Upload.AssembledFollowsTrace | Backup.class.php:320-324 | the bytes appended by the trace are exactly the assembled chunk bytes |
| Upload.MoveUploaded | Backup.class.php:315 | the temporary file moves to the chunk path; nothing else changes |
| Upload.HandleUpload | Backup.class.php:286-341 | 400 exactly when no file came or its error code is non-zero, and then nothing changes; completion exactly on the chunk whose index is one less than the total, returning the md5 of the archive path and recording that id; 201 exactly for an earlier index; no reply exactly past the total; only completion touches the id map |
| Upload.PathFromIdRecorded | Backup.class.php:688-690 | an id recorded for a path leads back to that path; other ids keep their paths |
| Upload.NonFinalChunkOnlyStores | Backup.class.php:336-339 | a non-final chunk stores its bytes, leaves the archive as it was, and leaves every other file unchanged apart from the consumed upload |
| Upload.FinalChunkCompletes | Backup.class.php:316-334 | the final chunk returns md5 of the path, the id leads back to the path, every chunk file is gone, the archive has all chunks in order, other files are unchanged |
| Upload.ChunkArrivalsCommute | Backup.class.php:315 | two non-final chunks stored in either order give the same files |
| Upload.FinalSignalIsTrusted | Backup.class.php:316-327 | if the last chunk arrives first, reassembly runs at once and silently skips the missing chunks |
| Upload.ReuploadAppends | Backup.class.php:323-324 | re-uploading a name appends to the existing archive instead of replacing it |
| Shell.EscapeShellArg | Backup.class.php:355 | the quoted argument starts and ends with a single quote |
| Shell.EscapeRoundTrip | Backup.class.php:355 | the shell reads back exactly the original argument from escapeshellarg's output |
| Launcher.LogPathsDistinct | Backup.class.php:355 | a job's stdout and stderr logs are different files |
| Launcher.Detach | Backup.class.php:355 | every job command ends with `& echo $!` |
| Launcher.WarmspareFlagFollowsEcho | Backup.class.php:367-370 | as written, a warm-spare backup command ends in `& echo $! --warmspare`, so the flag goes to echo |
| Launcher.BackupCommandCarriesFlag | Backup.class.php:367-370 | corrected: the flag follows the job's own arguments and the command still ends with a bare `& echo $!` |
| Launcher.BackupCommandAsWritten | Backup.class.php:366-370 | as written, the command starts with the job's own arguments and, without the flag, ends with `& echo $!` |
| Launcher.BackupCommand | Backup.class.php:366-370 | corrected: the command starts with the job's own arguments and always ends with `& echo $!` |
| Launcher.RunRestore | Backup.class.php:346-358 | refused exactly when the file id has no non-empty path; otherwise the restore command is built from that path, and the response carries the trimmed pid and the stdout log, `false` when it is missing |
| Launcher.RunBackup | Backup.class.php:359-374 | refused exactly when no id is given; otherwise the command is built as written, with the id's warm-spare setting deciding the trailing flag, and the response carries the trimmed pid and the stdout log, `false` when it is missing |
| Launcher.RunBackupFlagGoesToEcho | Backup.class.php:366-370 | with the warm-spare setting on, the command `runBackup` starts ends in `& echo $! --warmspare` |
| Launcher.WarmsparePidCarriesFlag | Backup.class.php:366-374 | with the warm-spare setting on, the shell prints the flag after the pid, and the response's pid carries ` --warmspare` |
| Launcher.LaunchedPidIsEchoedPid | Backup.class.php:371-374 | when the shell prints a pid and a newline, the response's pid is exactly that pid |
| Launcher.JobArgumentsSurviveQuoting | Backup.class.php:355-367 | the command's `--backup=`/`--restore=` word reads back, as the shell parses it, as the option with the subject unchanged, and its `--transaction=` word as the transaction id unchanged |
| StatusStream.StatusTick | Backup.class.php:434-462 | a missing parameter stops the stream; a live job reports running with the whole stdout log and touches no file; an ended job removes both logs, reports errored exactly when stderr is non-empty (out+err), else stopped |
| StatusStream.PollAfterEndIsQuiet | Backup.class.php:447-462 | polling again after the end finds no logs, reports stopped with the log `false` and changes nothing |
| StatusStream.Session | Backup.class.php:434-463 | up to the first terminal event a stream emits one event per poll: running events, then at most one terminal event |
| StatusStream.TickLog | Backup.class.php:447-457 | every event carries at least the whole stdout log, and a running event carries exactly it |
| StatusStream.SessionLogsGrow | Backup.class.php:447-450 | while the job's output only grows, each event's log extends every earlier event's log |
| StatusStream.SessionEndRemovesLogs | Backup.class.php:453-461 | the poll that ends a session has removed both log files |
| Hooks.Push | Backup.class.php:655-657 | a push appends to an existing queue and is dropped for a queue never created |
| Hooks.PushAllAppends | Backup.class.php:652-658 | pushing a list item by item appends the whole list in order to that queue only |
| Hooks.LineTagIsLeftmost | Backup.class.php:665-667 | a line's tag is the phase named by the leftmost `(pre\|post):(backup\|restore)` match |
| Hooks.FileTagIsFirstTaggedLine | Backup.class.php:664-682 | a hook file's phase is that of its first tagged line; later lines are ignored |
| Hooks.DirHooks | Backup.class.php:661-685 | the directory yields at most one hook per entry for each phase |
| Hooks.DirFoldPerPhase | Backup.class.php:661-685 | the directory loop appends to each existing queue exactly that phase's qualifying tagged files, in directory order, and creates no queue |
| Hooks.OneQueuePerFile | Backup.class.php:669-681 | over all four queues the directory yields exactly one hook per qualifying tagged file |
| Hooks.ResetQueue | Backup.class.php:630-637 | the requested queues are recreated empty and the others are kept |
| Hooks.WithEnvHooksPerPhase | Backup.class.php:646-659 | each existing queue receives its own environment variable's comma-separated list |
| Hooks.GetHooks | Backup.class.php:629-686 | getHooks keeps every existing queue and creates exactly the requested ones |
| Hooks.GetHooksQueues | Backup.class.php:629-686 | each queue after getHooks is its reset content, then its environment hooks, then its directory hooks, both only when the directory exists; an unrequested, absent queue stays absent |
| Hooks.NoHookDirNoHooks | Backup.class.php:642-644 | without a hook directory, requested queues come back empty even when the environment lists hooks |
| Schedule.RemoveAllMembers | Backup.class.php:855 | removeAll keeps exactly the entries that do not contain the command |
| Schedule.CommandHasMarker | Backup.class.php:873 | every backup command contains `fwconsole backup` |
| Schedule.CleanSlateRemovesBackupLines | Backup.class.php:860-867 | the clean slate removes exactly the lines containing `fwconsole backup` and keeps the others in order |
| Schedule.AddLoopAppends | Backup.class.php:868-877 | with no command colliding with another backup's line, the loop appends one line per enabled backup and touches nothing else |
| Schedule.SyncAll | Backup.class.php:859-879 | whatever the settings, a full sync keeps the lines without `fwconsole backup` in order, ahead of the backup lines |
| Schedule.SyncAllResult | Backup.class.php:847-880 | a full sync yields the non-backup lines in order followed by exactly the planned lines of the enabled backups |
| Schedule.OneLinePerEnabledBackup | Backup.class.php:868-877 | after a full sync exactly one cron line runs each enabled backup |
| Schedule.DisabledBackupHasNoLine | Backup.class.php:860-877 | after a full sync no line runs a backup whose schedule is not enabled |
| Schedule.ScheduleOneAsWritten | Backup.class.php:848-858 | as written, scheduling one enabled backup drops every line holding the single-backup command (space before `>`) and appends its line at the end |
| Schedule.ScheduleOne | Backup.class.php:848-858 | corrected: scheduling one enabled backup drops every line holding the backup's full-sync command and appends its full-sync line at the end |
| Schedule.DisabledSingleIsFullSync | Backup.class.php:848-858 | a single id that is `all` or not enabled falls through to the full sync |
| Schedule.SingleScheduleDuplicates | Backup.class.php:849-856 | as written, scheduling one backup right after a full sync leaves two lines that run it |
| Schedule.SingleScheduleIgnoresWarmSpare | Backup.class.php:851 | as written, a single schedule does not depend on the backup's own warm-spare setting |
| Schedule.SingleScheduleHonoursWarmSpare | Backup.class.php:871 | corrected: the single schedule's flag follows the backup's setting |
| Schedule.ScheduleOneKeepsOneLine | Backup.class.php:849-857 | corrected: scheduling one backup keeps every other line in order and leaves exactly one line that runs it |
| Archive.DetermineBackupFileType | Backup.class.php:1164-1175 | `current` exactly when some entry is a directory named `modulejson`, else `legacy` |
| Ui.ActionBar | Backup.class.php:163-166 | outside a view there are no buttons |
| Ui.GenericButtonsOrder | Backup.class.php:183-215 | the generic buttons are reset and save, then "Save and Run" when editing off the landing page, then "Delete" when editing |
| Ui.ActionBarButtons | Backup.class.php:163-216 | no buttons outside a view; Run Restore and Go Back on the restore page; otherwise Delete exactly when an id is given, Save and Run exactly when an id is given off the backup_restore display |
| Ui.AjaxRequest | Backup.class.php:223-246 | a command is accepted exactly when it is one of the fifteen listed; only the two status commands set changesession to false |
| Ui.HandledCommandsAccepted | Backup.class.php:223-246 | the upload, launch and status commands are accepted; only the status streams release the session |
| BackupSettings.GetBackup | Backup.class.php:767-777 | an empty group reads as nothing; otherwise every field is present, holding the stored value or "", and non-field keys are dropped |
| BackupSettings.GetBackupIdempotent | Backup.class.php:767-777 | reading back a read result changes nothing |
| BackupSettings.GetBackupStoredFields | Backup.class.php:33-55 | a group holding exactly the fields reads back unchanged; the field list repeats `warmspare_remotenat` |
| BackupSettings.ModuleNames | Backup.class.php:971-976 | the stored names are exactly the `modulename` values of the entries that have one |
| BackupSettings.SetModulesById | Backup.class.php:969-978 | the backup's module group becomes exactly the named modules, and other groups are untouched |
| BackupSettings.SetModulesReplaces | Backup.class.php:969-978 | the prior module group does not matter, and setting the same list twice equals setting it once |
| Storage.MergeMembers | Backup.class.php:745-749 | the merged list holds exactly the types some hook listed |
| Storage.MergeConcat | Backup.class.php:745-749 | merging goes hook by hook: each hook's list follows those of the hooks before it |
| Storage.MergeOne | Backup.class.php:746-748 | a hook answering a list contributes that list; any other answer contributes nothing |
| Storage.GetFsType | Backup.class.php:743-751 | a list result is never empty and is the merged list |
| Storage.GetFsTypeDefault | Backup.class.php:743-751 | `backup` is returned exactly when no hook lists a type |
| Storage.LocalPathOfRemote | Backup.class.php:1150-1153 | a remote path `<prefix>/<dir>/<name>` maps to `<spool>/backup/<dir>/<name>` |
| Storage.RemoteToLocal | Backup.class.php:1149-1163 | the download runs exactly when the local copy is missing; "" exactly when it is still missing afterwards; otherwise md5(path) -> path is recorded |
| Storage.RemoteToLocalFetches | Backup.class.php:1149-1163 | for `<driver>_<id>`, a missing file is fetched from that driver and id, and the returned path is found again under its md5 |
| Dependencies.ProcessDependencies | Backup.class.php:983-998 | succeeds exactly when every lower-cased dependency is installed or installable; the run stops at the first dependency that is neither; the modules installed afterwards are the prior ones plus the lower-cased dependencies before that point; the attempts are the missing ones before it, in order, then the failing one |
| Dependencies.MissingOnce | Backup.class.php:986-994 | the install attempts of a run that does not fail are exactly the lower-cased dependencies not installed beforehand, each attempted once |
| MessageCursor.SelectNew | views/run.php:34-39 | the selection loop computes the reference selection and the running maximum |
| MessageCursor.Tick | views/run.php:25-45 | final exactly when the cursor equals the last message's key (zero with no messages), leaving the cursor; otherwise it stores the running maximum and returns the selected messages, or false when there are none |
| MessageCursor.RunningMaxBelow | views/run.php:34-39 | the new cursor is below k exactly when the old cursor and every key are |
| MessageCursor.SelectedWhenAboveAllEarlier | views/run.php:35-38 | a message is selected exactly when its key exceeds the start cursor and every earlier key |
| MessageCursor.SelectionIncreases | views/run.php:34-40 | selected keys exceed the start cursor and strictly increase; the stored cursor never decreases and equals the last selected key, or the old cursor when nothing is selected |
| MessageCursor.SecondTickSelectsNothing | views/run.php:34-44 | every key is at most the stored cursor, so the next tick over the same messages selects nothing |
| PhpStrings.TrimEchoed | Backup.class.php:374 | trimming a printed pid plus a newline gives back the pid |
| PhpStrings.NatToStringInjective | Backup.class.php:315 | distinct chunk indices render as distinct decimal strings |
| PhpStrings.ImplodeExplode | Backup.class.php:652 | joining exploded pieces gives back the original text |

## Left out

- HTTP and JSON plumbing are not modelled: response objects, headers, `exit`, JSON encoding and session handling. The model returns the data each branch would encode.
- The SSE loops (the 1000 ms status interval, the run page's update cadence) are not modelled. A stream is a sequence of polls, each with the process table and files of that moment.
- Process spawning is not modelled. The launch's result (started or not, printed output, files afterwards) is a parameter. A failing `mustRun` throws in PHP; the model returns `LaunchFailed`.
- `generateId`, `posix_getpgid`, `getAsteriskUserHomeDir`, `Config->get`, `md5` and the directory listing are parameters.
- After reassembly, `BackupFile::getMetadata` and storing `meta` (Backup.class.php:330-332) are not modelled. They need the tar library.
- `mkdir` of the chunk directory is not modelled, because directories are not modelled.
- In `determineBackupFileType` the tar library is not modelled; the archive's entry list is the input.
- Listing an existing path that is not a directory is not modelled. There `DirectoryIterator` throws.
- Hook files are given as their lines. `fgets` reading and the `eof` loop are not modelled.
- The cron helper is not part of this model. `remove` drops equal lines, `removeAll` drops lines containing the command, and `add` appends unless the line is present.
- `Hooks->processHooks` answers are lists. Arrays with string keys are not modelled: `array_merge` would overwrite those keys.
- `Filestore->get` is not modelled. Its only effect modelled is whether the local file exists afterwards.
- `Modules->getInfo` and `mf->install` are the sets `installed` and `installable`. A module installed earlier in the same run counts as installed.
- Button labels are the untranslated strings. `_()` is not modelled.
- Request fields are modelled as integers where the code does arithmetic (chunk index and total). PHP's loose conversion of non-numeric strings is not modelled. The model also assumes the index arrives as canonical decimal text: a non-canonical numeric index such as `01` stores a chunk named `<name>01`, which the reassembly loop never reads, since it opens `<name>1` (Backup.class.php:315, 319).
- `escapeshellarg` is modelled for single-byte text. Its locale-dependent dropping of invalid multibyte sequences is not modelled.
- The key order of `getBackup`'s returned array is not modelled; the result is a map.
- The run page's message cursor assumes the `monolog` keys are integers. PHP's loose comparison of string keys (`$key > $last`, `$last == $lastInArray`, views/run.php:31, 35) is not modelled.
- The Ratchet websocket bootstrap in the HEAD half of views/run.php is not modelled.
- The key/value store (`getConfig`, `setConfig`, `getAll`, `delById`) is maps. Its SQL storage and the PHP types of stored values are not modelled.
- Schedule.AddLoopAppends, Schedule.SyncAllResult and Schedule.OneLinePerEnabledBackup assume that no enabled backup's command occurs inside another enabled backup's cron line (`NoCollision`). The crontab helper matches by substring, so the code itself does not guarantee this.
- Schedule.DisabledBackupHasNoLine also assumes that no enabled backup's line contains the disabled backup's command.
- Schedule.SingleScheduleDuplicates assumes an absolute `AMPSBIN` and a schedule without `/`. Under those conditions the single command cannot occur inside the old line.
- Schedule.AddLoopAppends also assumes its starting crontab holds no line with `fwconsole backup`, which the clean slate ensures.
- StatusStream.Session assumes the client closes the stream after the first terminal event. The stream itself has no end condition: it goes on polling, and each later poll finds the logs gone and reports `stopped` with the log `false` (StatusStream.PollAfterEndIsQuiet).
- StatusStream.SessionLogsGrow assumes the job only appends to its stdout log between polls (`OutputGrows`).

## Findings

| source | as written | input that shows it | evidently intended | confidence | as-written member | corrected member |
|---|---|---|---|---|---|---|
| Backup.class.php:367-370 | ` --warmspare` is appended after `& echo $!` | any backup whose `warmspareenabled` is `yes` | the flag among the backup job's arguments, before the redirections | high, not executed | Launcher.WarmspareFlagFollowsEcho | Launcher.BackupCommandCarriesFlag |
| Backup.class.php:853 | the single-backup command is `--backup=%s %s >` (space before `>`); the full sync writes `--backup=%s %s>` | `scheduleJobs('all')` then `scheduleJobs('a')` for an enabled backup `a` without warm spare | the same command text in both paths, so `removeAll` replaces the old line | high, not executed | Schedule.SingleScheduleDuplicates | Schedule.ScheduleOneKeepsOneLine |
| Backup.class.php:851 | the warm-spare setting is read for `$buid`, a variable undefined in `scheduleJobs` | `scheduleJobs('a')` for a backup `a` whose `warmspareenabled` is `yes` | read the setting of `$id`, as the full sync does for `$key` | medium, not executed | Schedule.SingleScheduleIgnoresWarmSpare | Schedule.SingleScheduleHonoursWarmSpare |

`Launcher.RunBackup` models `runBackup` as written, and `Launcher.RunBackupFlagGoesToEcho` shows the first finding on it. `Launcher.BackupCommand` is the corrected command. `Schedule.ScheduleOne` is the corrected single-backup schedule; `Schedule.ScheduleOneAsWritten` is the code as written.

## Documented behaviour that the code does not follow

- Hook lists from the environment are read only when the hook directory exists. `getHooks` returns at Backup.class.php:642-644 before reading them. The model follows the code; see Hooks.NoHookDirNoHooks.
- Queues are state of the module object. A queue created by an earlier `getHooks` call still receives hooks when a later call asks for another kind (Backup.class.php:655, 672-683). Only on a fresh object are the requested queues the only ones filled. Hooks.GetHooksQueues states both cases.
- The id returned for an uploaded archive is the md5 of the archive's path, not of its contents (Backup.class.php:328). The model follows the code.
- When no file is sent, `$_FILES['file']['error']` is null, which is not `0`. The "could not be processed" error replaces "No file provided" (Backup.class.php:289-294). The model returns a rejection without an error code.
