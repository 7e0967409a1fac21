/** Starting a backup or restore job in the background (the `runRestore` and
    `runBackup` branches of the module's ajax handler). The job's standard
    output and standard error go to per-transaction log files, which the
    status stream later reads and removes. */
module Launcher {
  import opened Wrappers
  import opened PhpStrings
  import opened Files
  import Shell

  datatype JobKind = BackupJob | RestoreJob

  datatype Stream = Out | Err

  function KindName(k: JobKind): string
  {
    match k
    case BackupJob => "backup"
    case RestoreJob => "restore"
  }

  function StreamName(s: Stream): string
  {
    match s
    case Out => "out"
    case Err => "err"
  }

  /** `<logdir>/<kind>_<transaction>_<out|err>.log`, the one naming scheme shared by
      the launchers and the status stream. */
  function LogPath(logDir: string, kind: JobKind, txn: string, s: Stream): string
  {
    logDir + "/" + KindName(kind) + "_" + txn + "_" + StreamName(s) + ".log"
  }

  /** A job's two log files are different files. */
  lemma LogPathsDistinct(logDir: string, kind: JobKind, txn: string)
    ensures LogPath(logDir, kind, txn, Out) != LogPath(logDir, kind, txn, Err)
  {
    var o, e := LogPath(logDir, kind, txn, Out), LogPath(logDir, kind, txn, Err);
    var k := |logDir + "/" + KindName(kind) + "_" + txn + "_"|;
    assert o[k] == 'o' && e[k] == 'e';
  }

  /** The fwconsole invocation at the head of a job command: the subject and
      the transaction id, each quoted for the shell. */
  function Invocation(sbin: string, option: string, subject: string, txn: string): string
  {
    sbin + "/fwconsole backup --" + option + "=" + Shell.EscapeShellArg(subject) + " --transaction=" + Shell.EscapeShellArg(txn)
  }

  /** The tail of a job command: standard output and standard error go to the
      job's two log files, the job runs in the background, and the shell
      prints the job's process id. */
  function Detach(loc: string, kind: JobKind, txn: string): (r: string)
    ensures |r| >= 10 && r[|r| - 10..] == " & echo $!"
  {
    " > " + LogPath(loc, kind, txn, Out) + " 2> " + LogPath(loc, kind, txn, Err) + " & echo $!"
  }

  /** The shell command `runRestore` starts. */
  function RestoreCommand(sbin: string, file: string, txn: string, loc: string): string
  {
    Invocation(sbin, "restore", file, txn) + Detach(loc, RestoreJob, txn)
  }

  /** The shell command `runBackup` starts, as the source builds it: the
      warm-spare flag is appended after `& echo $!`. */
  function BackupCommandAsWritten(sbin: string, buid: string, txn: string, loc: string, warmspare: bool): (r: string)
    ensures Invocation(sbin, "backup", buid, txn) <= r
    ensures !warmspare ==> r[|r| - 10..] == " & echo $!"
  {
    var command := Invocation(sbin, "backup", buid, txn) + Detach(loc, BackupJob, txn);
    if warmspare then command + " --warmspare" else command
  }

  /** As written, the warm-spare flag becomes an argument of `echo`: with the
      flag the command ends in `& echo $! --warmspare`, so the backup job never
      receives it and the printed process id is followed by the flag. */
  lemma WarmspareFlagFollowsEcho(sbin: string, buid: string, txn: string, loc: string)
    ensures var c := BackupCommandAsWritten(sbin, buid, txn, loc, true);
            |c| >= 22 && c[|c| - 22..] == " & echo $! --warmspare"
  {
    var d := Detach(loc, BackupJob, txn);
    var c0 := Invocation(sbin, "backup", buid, txn) + d;
    SuffixOfConcat(Invocation(sbin, "backup", buid, txn), d, 10);
    SuffixExtends(c0, " --warmspare", 10);
    var c := BackupCommandAsWritten(sbin, buid, txn, loc, true);
    assert c == c0 + " --warmspare";
    assert c[|c| - 22..] == " & echo $!" + " --warmspare";
    EchoThenFlag();
  }

  lemma EchoThenFlag()
    ensures " & echo $!" + " --warmspare" == " & echo $! --warmspare"
  {
  }

  /** The last `n` characters of `a + b` are those of `b`. */
  lemma SuffixOfConcat(a: string, b: string, n: nat)
    requires n <= |b|
    ensures (a + b)[|a + b| - n..] == b[|b| - n..]
  {
  }

  /** Appending `t` to `a` puts `t` after `a`'s last `n` characters. */
  lemma SuffixExtends(a: string, t: string, n: nat)
    requires n <= |a|
    ensures (a + t)[|a + t| - (n + |t|)..] == a[|a| - n..] + t
  {
  }

  /** The backup command with the warm-spare flag placed among the job's own
      arguments, before the redirections. */
  function BackupCommand(sbin: string, buid: string, txn: string, loc: string, warmspare: bool): (r: string)
    ensures Invocation(sbin, "backup", buid, txn) <= r
    ensures r[|r| - 10..] == " & echo $!"
  {
    Invocation(sbin, "backup", buid, txn) + (if warmspare then " --warmspare" else "") + Detach(loc, BackupJob, txn)
  }

  /** With the flag in place, the job receives it right after its own
      arguments, and the command ends with the bare `echo $!` whatever the flag. */
  lemma BackupCommandCarriesFlag(sbin: string, buid: string, txn: string, loc: string, warmspare: bool)
    ensures var c := BackupCommand(sbin, buid, txn, loc, warmspare);
            var head := Invocation(sbin, "backup", buid, txn);
            && |c| >= |head| + 10
            && c[..|head|] == head
            && (warmspare ==> c[|head|..|head| + 12] == " --warmspare")
            && (!warmspare ==> c[|head|..] == Detach(loc, BackupJob, txn))
            && c[|c| - 10..] == " & echo $!"
  {
    var c := BackupCommand(sbin, buid, txn, loc, warmspare);
    var d := Detach(loc, BackupJob, txn);
    assert c[|c| - 10..] == d[|d| - 10..];
  }

  /** The key/value settings the launchers read. */
  datatype LaunchConfig = LaunchConfig(
    sbin: string,                                  // AMPSBIN
    logDir: string,                                // ASTLOGDIR
    localFilePaths: map<string, string>,           // the 'localfilepaths' group: file id -> path
    settings: map<string, map<string, string>>)    // per-backup settings: id -> name -> value

  /** What the operating system did with the command: whether the process
      could be started, what it printed (the `echo $!` output), and the files
      present right after it returned. */
  datatype Spawn = Spawn(started: bool, output: string, fs: FileSystem)

  datatype LaunchResponse =
    | Refused(message: string)
    | LaunchFailed
    | Launched(transaction: string, subject: string, pid: string, log: Option<Bytes>)  // `false` for a missing log

  /** The response together with the command line handed to the shell, if any. */
  datatype Launch = Launch(response: LaunchResponse, command: Option<string>)

  /** `getConfig($setting, $id) === 'yes'`. */
  predicate SettingIsYes(settings: map<string, map<string, string>>, id: string, name: string)
  {
    id in settings && name in settings[id] && settings[id][name] == "yes"
  }

  /** `runRestore`: resolve the file id to a local path and start the restore. */
  function RunRestore(cfg: LaunchConfig, fileId: string, txn: string, spawn: Spawn): (r: Launch)
    ensures r.response.Refused? <==> fileId !in cfg.localFilePaths || IsEmpty(cfg.localFilePaths[fileId])
    ensures r.response.Refused? <==> r.command.None?
    ensures r.command.Some? ==>
              r.command.value == Invocation(cfg.sbin, "restore", cfg.localFilePaths[fileId], txn) + Detach(cfg.logDir, RestoreJob, txn)
    ensures r.response.LaunchFailed? <==> r.command.Some? && !spawn.started
    ensures r.response.Launched? ==>
              && r.response.transaction == txn
              && r.response.subject == fileId
              && r.response.pid == Trim(spawn.output)
              && r.response.log == ReadFile(spawn.fs, LogPath(cfg.logDir, RestoreJob, txn, Out))
  {
    if fileId !in cfg.localFilePaths || IsEmpty(cfg.localFilePaths[fileId]) then
      Launch(Refused("Could not find a file for the id supplied"), None)
    else
      var command := RestoreCommand(cfg.sbin, cfg.localFilePaths[fileId], txn, cfg.logDir);
      if !spawn.started then Launch(LaunchFailed, Some(command))
      else
        var log := ReadFile(spawn.fs, LogPath(cfg.logDir, RestoreJob, txn, Out));
        Launch(Launched(txn, fileId, Trim(spawn.output), log), Some(command))
  }

  /** `runBackup`: start the backup named by the request's id. */
  function RunBackup(cfg: LaunchConfig, id: Option<string>, txn: string, spawn: Spawn): (r: Launch)
    ensures r.response.Refused? <==> id.None?
    ensures r.response.Refused? <==> r.command.None?
    ensures r.command.Some? ==>
              r.command.value == BackupCommandAsWritten(cfg.sbin, id.value, txn, cfg.logDir, SettingIsYes(cfg.settings, id.value, "warmspareenabled"))
    ensures r.response.LaunchFailed? <==> r.command.Some? && !spawn.started
    ensures r.response.Launched? ==>
              && r.response.transaction == txn
              && r.response.subject == id.value
              && r.response.pid == Trim(spawn.output)
              && r.response.log == ReadFile(spawn.fs, LogPath(cfg.logDir, BackupJob, txn, Out))
  {
    match id
    case None => Launch(Refused("No backup id provided"), None)
    case Some(buid) =>
      var warmspare := SettingIsYes(cfg.settings, buid, "warmspareenabled");
      var command := BackupCommandAsWritten(cfg.sbin, buid, txn, cfg.logDir, warmspare);
      if !spawn.started then Launch(LaunchFailed, Some(command))
      else
        var log := ReadFile(spawn.fs, LogPath(cfg.logDir, BackupJob, txn, Out));
        Launch(Launched(txn, buid, Trim(spawn.output), log), Some(command))
  }

  /** With the warm-spare setting on, the command `runBackup` starts ends in
      `& echo $! --warmspare`: the flag never reaches the backup job. */
  lemma RunBackupFlagGoesToEcho(cfg: LaunchConfig, id: string, txn: string, spawn: Spawn)
    requires SettingIsYes(cfg.settings, id, "warmspareenabled")
    ensures var c := RunBackup(cfg, Some(id), txn, spawn).command;
            c.Some? && |c.value| >= 22 && c.value[|c.value| - 22..] == " & echo $! --warmspare"
  {
    WarmspareFlagFollowsEcho(cfg.sbin, id, txn, cfg.logDir);
  }

  /** Since `echo` prints its arguments, with the warm-spare setting on the
      shell prints the process id followed by ` --warmspare`, and the
      response's pid carries the flag too. */
  lemma WarmsparePidCarriesFlag(cfg: LaunchConfig, id: string, txn: string, pid: string, fs: FileSystem)
    requires pid != [] && !IsTrimChar(pid[0])
    ensures RunBackup(cfg, Some(id), txn, Spawn(true, pid + " --warmspare" + "\n", fs)).response.pid == pid + " --warmspare"
  {
    TrimEchoed(pid + " --warmspare");
  }

  /** When the shell echoes a process id followed by a line break, the response
      carries exactly that id. */
  lemma LaunchedPidIsEchoedPid(cfg: LaunchConfig, id: string, txn: string, pid: string, fs: FileSystem)
    requires pid == [] || (!IsTrimChar(pid[0]) && !IsTrimChar(pid[|pid| - 1]))
    ensures RunBackup(cfg, Some(id), txn, Spawn(true, pid + "\n", fs)).response.pid == pid
  {
    TrimEchoed(pid);
  }

  /** The job's option and transaction words decode, the way the shell reads
      them, to the option with the subject and the transaction id unchanged,
      however they are quoted. */
  lemma JobArgumentsSurviveQuoting(sbin: string, option: string, subject: string, txn: string)
    requires option == "backup" || option == "restore"
    ensures var w1 := "--" + option + "=" + Shell.EscapeShellArg(subject);
            var w2 := "--transaction=" + Shell.EscapeShellArg(txn);
            && Invocation(sbin, option, subject, txn) == sbin + "/fwconsole backup " + w1 + " " + w2
            && Shell.DecodeUnquoted(w1) == "--" + option + "=" + subject
            && Shell.DecodeUnquoted(w2) == "--transaction=" + txn
  {
    InvocationWords(sbin, option, subject, txn);
    var o := "--" + option + "=";
    OptionWordPlain(option);
    QuotedWordDecodes(o, subject);
    TransactionWordPlain();
    QuotedWordDecodes("--transaction=", txn);
  }

  /** The invocation is the program, the option word and the transaction word, space separated. */
  lemma InvocationWords(sbin: string, option: string, subject: string, txn: string)
    ensures Invocation(sbin, option, subject, txn)
         == sbin + "/fwconsole backup " + ("--" + option + "=" + Shell.EscapeShellArg(subject)) + " " + ("--transaction=" + Shell.EscapeShellArg(txn))
  {
  }

  /** A word made of a plain head and a quoted argument reads as the head and the argument. */
  lemma QuotedWordDecodes(head: string, arg: string)
    requires forall k :: 0 <= k < |head| ==> head[k] != '\'' && head[k] != '\\'
    ensures Shell.DecodeUnquoted(head + Shell.EscapeShellArg(arg)) == head + arg
  {
    Shell.DecodePlainPrefix(head, Shell.EscapeShellArg(arg));
    Shell.EscapeRoundTrip(arg);
  }

  lemma OptionWordPlain(option: string)
    requires option == "backup" || option == "restore"
    ensures var o := "--" + option + "=";
            forall k :: 0 <= k < |o| ==> o[k] != '\'' && o[k] != '\\'
  {
  }

  lemma TransactionWordPlain()
    ensures forall k :: 0 <= k < |"--transaction="| ==> "--transaction="[k] != '\'' && "--transaction="[k] != '\\'
  {
  }
}
