/** The status stream (`restorestatus` / `backupstatus` in the module's custom
    ajax handler): every poll re-reads the job's log files, reports whether
    the job is still running, and removes both logs once the job has ended. */
module StatusStream {
  import opened Wrappers
  import opened Files
  import opened Launcher

  /** The request fields the poll reads; `None` is a field that is not set. */
  datatype StatusRequest = StatusRequest(
    command: string,
    id: Option<string>,
    transaction: Option<string>,
    pid: Option<string>)

  datatype StatusEvent =
    | MissingParameters        // {status: 'stopped', error: 'Missing id or transaction or pid'}
    | Running(output: Option<Bytes>)     // the stdout log, `false` when missing
    | Errored(log: Bytes)                // stdout and stderr logs concatenated
    | Stopped(output: Option<Bytes>)     // the stdout log, `false` when missing

  /** The event a poll emits and the files left behind it. */
  datatype Tick = Tick(event: StatusEvent, fs: FileSystem)

  /** The job kind a status command refers to: only `restorestatus` means a restore. */
  function RequestKind(command: string): JobKind
  {
    if command == "restorestatus" then RestoreJob else BackupJob
  }

  predicate Complete(req: StatusRequest)
  {
    req.id.Some? && req.transaction.Some? && req.pid.Some?
  }

  /** One poll. `alive` is whether `posix_getpgid` still finds the process. */
  function StatusTick(req: StatusRequest, logDir: string, alive: bool, fs: FileSystem): (t: Tick)
    ensures !Complete(req) ==> t == Tick(MissingParameters, fs)
    ensures Complete(req) ==>
              var out := LogPath(logDir, RequestKind(req.command), req.transaction.value, Out);
              var err := LogPath(logDir, RequestKind(req.command), req.transaction.value, Err);
              && (alive ==> t == Tick(Running(ReadFile(fs, out)), fs))
              && (!alive ==> out !in t.fs && err !in t.fs)
              && (!alive ==> forall p :: p != out && p != err ==> (p in t.fs <==> p in fs))
              && (!alive ==> forall p :: p in t.fs ==> t.fs[p] == fs[p])
              && (!alive ==> (t.event.Errored? <==> !IsEmptyContents(Read(fs, err))))
              && (!alive ==> (t.event.Stopped? <==> IsEmptyContents(Read(fs, err))))
              && (t.event.Errored? ==> t.event.log == Read(fs, out) + Read(fs, err))
              && (t.event.Stopped? ==> t.event.output == ReadFile(fs, out))
  {
    if !Complete(req) then Tick(MissingParameters, fs)
    else
      var kind := RequestKind(req.command);
      var outFile := LogPath(logDir, kind, req.transaction.value, Out);
      var errorFile := LogPath(logDir, kind, req.transaction.value, Err);
      var log := ReadFile(fs, outFile);
      if alive then Tick(Running(log), fs)
      else
        var error := Read(fs, errorFile);
        var cleaned := Unlink(Unlink(fs, outFile), errorFile);
        if !IsEmptyContents(error) then Tick(Errored(log.GetOr([]) + error), cleaned)
        else Tick(Stopped(log), cleaned)
  }

  /** Polling again after the job has ended (the stream's next tick, a
      reconnecting client, or a second stream for the same transaction) finds
      no logs, reports `stopped` with the log `false` and changes nothing. */
  lemma PollAfterEndIsQuiet(req: StatusRequest, logDir: string, fs: FileSystem)
    requires Complete(req)
    ensures var first := StatusTick(req, logDir, false, fs);
            StatusTick(req, logDir, false, first.fs) == Tick(Stopped(None), first.fs)
  {
  }

  /** What one poll observes: the process table and the files at that moment. */
  datatype Poll = Poll(alive: bool, fs: FileSystem)

  /** The events of one stream session: one per poll, up to and including the
      first terminal event. The stream has no end of its own: it goes on
      polling until the client disconnects, and every later poll finds the
      logs gone (`PollAfterEndIsQuiet`). */
  function Session(req: StatusRequest, logDir: string, polls: seq<Poll>): (events: seq<StatusEvent>)
    ensures |events| <= |polls|
    ensures |polls| > 0 ==> |events| > 0
    ensures forall i :: 0 <= i < |events| - 1 ==> events[i].Running?
    ensures |events| < |polls| ==> !events[|events| - 1].Running?
    ensures forall i :: 0 <= i < |events| ==> events[i] == StatusTick(req, logDir, polls[i].alive, polls[i].fs).event
    decreases |polls|
  {
    if |polls| == 0 then []
    else
      var e := StatusTick(req, logDir, polls[0].alive, polls[0].fs).event;
      if e.Running? then [e] + Session(req, logDir, polls[1..]) else [e]
  }

  /** The log text an event shows, a missing log and the missing-parameter
      error showing none. */
  function EventLog(e: StatusEvent): Bytes
  {
    match e
    case MissingParameters => []
    case Running(output) => output.GetOr([])
    case Errored(log) => log
    case Stopped(output) => output.GetOr([])
  }

  /** The job only appends to its output log between polls. */
  ghost predicate OutputGrows(req: StatusRequest, logDir: string, polls: seq<Poll>)
    requires Complete(req)
  {
    var out := LogPath(logDir, RequestKind(req.command), req.transaction.value, Out);
    forall i, j :: 0 <= i < j < |polls| ==> Read(polls[i].fs, out) <= Read(polls[j].fs, out)
  }

  /** Each event of a session carries at least the log of every earlier event:
      a client never sees log content disappear while the job's output grows. */
  lemma {:induction false} SessionLogsGrow(req: StatusRequest, logDir: string, polls: seq<Poll>)
    requires Complete(req)
    requires OutputGrows(req, logDir, polls)
    ensures var events := Session(req, logDir, polls);
            forall i, j :: 0 <= i < j < |events| ==> EventLog(events[i]) <= EventLog(events[j])
  {
    var events := Session(req, logDir, polls);
    forall i, j | 0 <= i < j < |events|
      ensures EventLog(events[i]) <= EventLog(events[j])
    {
      assert events[i].Running?;
      TicksGrow(req, logDir, polls[i], polls[j]);
    }
  }

  /** A `running` event's log is contained in the event of any later poll
      whose output log extends the earlier one. */
  lemma TicksGrow(req: StatusRequest, logDir: string, a: Poll, b: Poll)
    requires Complete(req)
    requires StatusTick(req, logDir, a.alive, a.fs).event.Running?
    requires var out := LogPath(logDir, RequestKind(req.command), req.transaction.value, Out);
             Read(a.fs, out) <= Read(b.fs, out)
    ensures EventLog(StatusTick(req, logDir, a.alive, a.fs).event) <= EventLog(StatusTick(req, logDir, b.alive, b.fs).event)
  {
    TickLog(req, logDir, a.alive, a.fs);
    TickLog(req, logDir, b.alive, b.fs);
  }

  /** Every event of a complete request carries at least the whole output log,
      and a `running` event carries exactly it. */
  lemma TickLog(req: StatusRequest, logDir: string, alive: bool, fs: FileSystem)
    requires Complete(req)
    ensures var e := StatusTick(req, logDir, alive, fs).event;
            var out := LogPath(logDir, RequestKind(req.command), req.transaction.value, Out);
            && Read(fs, out) <= EventLog(e)
            && (e.Running? ==> EventLog(e) == Read(fs, out))
  {
  }

  /** Once a session ends on `stopped` or `errored`, the poll that produced
      that event has removed both log files. */
  lemma SessionEndRemovesLogs(req: StatusRequest, logDir: string, polls: seq<Poll>)
    requires Complete(req)
    requires var events := Session(req, logDir, polls);
             |events| > 0 && !events[|events| - 1].Running?
    ensures var n := |Session(req, logDir, polls)| - 1;
            var t := StatusTick(req, logDir, polls[n].alive, polls[n].fs);
            && LogPath(logDir, RequestKind(req.command), req.transaction.value, Out) !in t.fs
            && LogPath(logDir, RequestKind(req.command), req.transaction.value, Err) !in t.fs
  {
  }
}
