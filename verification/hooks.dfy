/** Hook discovery (`getHooks`): external scripts that run before or after a
    backup or a restore. Hooks come from four environment variables holding
    comma-separated lists and from the executable files of the hook
    directory whose text names a phase (`pre:backup`, `post:restore`, ...). */
module Hooks {
  import opened Wrappers
  import opened PhpStrings

  datatype Phase = PreBackup | PostBackup | PreRestore | PostRestore

  /** The four hook queues of the module object. A phase without a key is a
      queue that was never created; pushes to it are dropped. */
  type HookQueues = map<Phase, seq<string>>

  /** The queues `getHooks($type)` (re)creates: 'backup' the two backup
      queues, 'restore' the two restore queues, 'all' all four, anything else none. */
  predicate Requested(kind: string, p: Phase)
  {
    if p.PreBackup? || p.PostBackup? then kind == "backup" || kind == "all"
    else kind == "restore" || kind == "all"
  }

  /** `push` on a queue that may not exist. */
  function Push(q: HookQueues, p: Phase, item: string): (r: HookQueues)
    ensures r.Keys == q.Keys
    ensures p in q ==> r[p] == q[p] + [item]
    ensures forall o :: o in q && o != p ==> r[o] == q[o]
  {
    if p in q then q[p := q[p] + [item]] else q
  }

  /** Pushing each of `items` in turn. */
  function PushAll(q: HookQueues, p: Phase, items: seq<string>): HookQueues
    decreases |items|
  {
    if |items| == 0 then q
    else Push(PushAll(q, p, items[..|items| - 1]), p, items[|items| - 1])
  }

  /** Pushing item by item puts the whole list, in order, at the end of the
      queue and leaves the other queues alone. */
  lemma {:induction false} PushAllAppends(q: HookQueues, p: Phase, items: seq<string>)
    ensures PushAll(q, p, items).Keys == q.Keys
    ensures p in q ==> PushAll(q, p, items)[p] == q[p] + items
    ensures forall o :: o in q && o != p ==> PushAll(q, p, items)[o] == q[o]
    decreases |items|
  {
    if |items| > 0 {
      var prefix, last := items[..|items| - 1], items[|items| - 1];
      PushAllAppends(q, p, prefix);
      var mid := PushAll(q, p, prefix);
      assert PushAll(q, p, items) == Push(mid, p, last);
      if p in q {
        assert prefix + [last] == items;
        assert mid[p] + [last] == q[p] + items;
      }
    }
  }

  // ---------------------------------------------------------------------
  // Phase tags in hook files

  /** The phase named by a match of `(pre|post):(backup|restore)` starting at `i`. */
  function MatchAt(line: string, i: nat): Option<Phase>
  {
    if OccursAt("pre:backup", line, i) then Some(PreBackup)
    else if OccursAt("pre:restore", line, i) then Some(PreRestore)
    else if OccursAt("post:backup", line, i) then Some(PostBackup)
    else if OccursAt("post:restore", line, i) then Some(PostRestore)
    else None
  }

  /** The phase of the leftmost match at or after `i`. */
  function FirstMatchFrom(line: string, i: nat): Option<Phase>
    decreases |line| - i
  {
    if i >= |line| then None
    else if MatchAt(line, i).Some? then MatchAt(line, i)
    else FirstMatchFrom(line, i + 1)
  }

  /** `preg_match("/(pre|post):(backup|restore)/", $line, $out)` and
      `$out[1].$out[2]`: the phase of the leftmost match, if any. */
  function LineTag(line: string): Option<Phase>
  {
    FirstMatchFrom(line, 0)
  }

  /** There is no match between `j` (inclusive) and `i` (exclusive). */
  predicate NoMatchBetween(line: string, j: nat, i: nat)
  {
    forall k :: j <= k < i ==> MatchAt(line, k).None?
  }

  lemma {:induction false} FirstMatchFromIsLeftmost(line: string, j: nat, p: Phase)
    ensures FirstMatchFrom(line, j) == Some(p) <==>
              exists i :: j <= i < |line| && MatchAt(line, i) == Some(p) && NoMatchBetween(line, j, i)
    decreases |line| - j
  {
    if j >= |line| {
      return;
    }
    var m := MatchAt(line, j);
    if m.Some? {
      if m == Some(p) {
        assert NoMatchBetween(line, j, j);
      }
      forall i | j < i < |line|
        ensures !NoMatchBetween(line, j, i)
      {
        assert j <= j < i && MatchAt(line, j).Some?;
      }
    } else {
      FirstMatchFromIsLeftmost(line, j + 1, p);
      if FirstMatchFrom(line, j + 1) == Some(p) {
        var i :| j + 1 <= i < |line| && MatchAt(line, i) == Some(p) && NoMatchBetween(line, j + 1, i);
        assert NoMatchBetween(line, j, i);
      }
      forall i | j <= i < |line| && MatchAt(line, i) == Some(p) && NoMatchBetween(line, j, i)
        ensures FirstMatchFrom(line, j + 1) == Some(p)
      {
        assert i != j;
        assert NoMatchBetween(line, j + 1, i);
      }
    }
  }

  /** A line is tagged with a phase exactly when the leftmost match in it names that phase. */
  lemma LineTagIsLeftmost(line: string, p: Phase)
    ensures LineTag(line) == Some(p) <==>
              exists i :: 0 <= i < |line| && MatchAt(line, i) == Some(p) && NoMatchBetween(line, 0, i)
  {
    FirstMatchFromIsLeftmost(line, 0, p);
  }

  /** The phase of a hook file: that of its first line holding a match; the
      rest of the file is not read. */
  function FileTag(lines: seq<string>): Option<Phase>
    decreases |lines|
  {
    if |lines| == 0 then None
    else if LineTag(lines[0]).Some? then LineTag(lines[0])
    else FileTag(lines[1..])
  }

  /** Only the first tagged line counts: a later line naming another phase changes nothing. */
  lemma {:induction false} FileTagIsFirstTaggedLine(lines: seq<string>, p: Phase)
    ensures FileTag(lines) == Some(p) <==>
              exists i :: 0 <= i < |lines| && LineTag(lines[i]) == Some(p) && forall k :: 0 <= k < i ==> LineTag(lines[k]).None?
    decreases |lines|
  {
    if |lines| > 0 && LineTag(lines[0]).None? {
      var rest := lines[1..];
      FileTagIsFirstTaggedLine(rest, p);
      if exists i :: 0 <= i < |lines| && LineTag(lines[i]) == Some(p) && forall k :: 0 <= k < i ==> LineTag(lines[k]).None? {
        var i :| 0 <= i < |lines| && LineTag(lines[i]) == Some(p) && forall k :: 0 <= k < i ==> LineTag(lines[k]).None?;
        assert 1 <= i && rest[i - 1] == lines[i];
        assert forall k :: 0 <= k < i - 1 ==> rest[k] == lines[k + 1];
      }
      if exists i :: 0 <= i < |rest| && LineTag(rest[i]) == Some(p) && forall k :: 0 <= k < i ==> LineTag(rest[k]).None? {
        var i :| 0 <= i < |rest| && LineTag(rest[i]) == Some(p) && forall k :: 0 <= k < i ==> LineTag(rest[k]).None?;
        assert lines[i + 1] == rest[i];
        assert forall k :: 1 <= k < i + 1 ==> lines[k] == rest[k - 1];
      }
    }
  }

  // ---------------------------------------------------------------------
  // The hook directory

  /** One entry of the hook directory, with the lines `fgets` returns for it. */
  datatype HookFile = HookFile(name: string, isFile: bool, readable: bool, executable: bool, lines: seq<string>)

  predicate Qualifies(f: HookFile)
  {
    f.isFile && f.readable && f.executable
  }

  /** The queue a directory entry goes to, if any. */
  function EntryPhase(f: HookFile): Option<Phase>
  {
    if Qualifies(f) then FileTag(f.lines) else None
  }

  /** Visiting one directory entry. */
  function Visit(q: HookQueues, hookPath: string, f: HookFile): HookQueues
  {
    match EntryPhase(f)
    case None => q
    case Some(p) => Push(q, p, hookPath + "/" + f.name)
  }

  /** The directory iteration, entry by entry in directory order. */
  function DirFold(q: HookQueues, hookPath: string, files: seq<HookFile>): HookQueues
    decreases |files|
  {
    if |files| == 0 then q
    else Visit(DirFold(q, hookPath, files[..|files| - 1]), hookPath, files[|files| - 1])
  }

  /** The hooks of one phase in the directory: the paths of the qualifying
      entries tagged with that phase, in directory order. */
  function DirHooks(hookPath: string, files: seq<HookFile>, p: Phase): (hooks: seq<string>)
    ensures |hooks| <= |files|
    decreases |files|
  {
    if |files| == 0 then []
    else
      var f := files[|files| - 1];
      DirHooks(hookPath, files[..|files| - 1], p) + (if EntryPhase(f) == Some(p) then [hookPath + "/" + f.name] else [])
  }

  /** The directory iteration appends to each existing queue exactly that
      phase's directory hooks, and creates no queue. */
  lemma {:induction false} DirFoldPerPhase(q: HookQueues, hookPath: string, files: seq<HookFile>, p: Phase)
    ensures DirFold(q, hookPath, files).Keys == q.Keys
    ensures p in q ==> DirFold(q, hookPath, files)[p] == q[p] + DirHooks(hookPath, files, p)
    decreases |files|
  {
    if |files| > 0 {
      DirFoldPerPhase(q, hookPath, files[..|files| - 1], p);
    }
  }

  /** Number of hooks the directory yields over all four phases. */
  function TotalDirHooks(hookPath: string, files: seq<HookFile>): nat
  {
    |DirHooks(hookPath, files, PreBackup)| + |DirHooks(hookPath, files, PostBackup)|
      + |DirHooks(hookPath, files, PreRestore)| + |DirHooks(hookPath, files, PostRestore)|
  }

  lemma DirHooksSnoc(hookPath: string, files: seq<HookFile>, p: Phase)
    requires |files| > 0
    ensures |DirHooks(hookPath, files, p)|
         == |DirHooks(hookPath, files[..|files| - 1], p)| + (if EntryPhase(files[|files| - 1]) == Some(p) then 1 else 0)
  {
  }

  /** Number of qualifying directory entries that carry a phase tag. */
  function TaggedEntries(files: seq<HookFile>): nat
    decreases |files|
  {
    if |files| == 0 then 0
    else TaggedEntries(files[..|files| - 1]) + (if EntryPhase(files[|files| - 1]).Some? then 1 else 0)
  }

  /** Each file lands in at most one queue (the read stops at the first
      tagged line), so the directory yields at most one hook per entry, and
      exactly one per qualifying tagged entry. */
  lemma {:induction false} OneQueuePerFile(hookPath: string, files: seq<HookFile>)
    ensures TotalDirHooks(hookPath, files) == TaggedEntries(files)
    ensures TotalDirHooks(hookPath, files) <= |files|
    decreases |files|
  {
    if |files| > 0 {
      var prefix := files[..|files| - 1];
      OneQueuePerFile(hookPath, prefix);
      var f := files[|files| - 1];
      DirHooksSnoc(hookPath, files, PreBackup);
      DirHooksSnoc(hookPath, files, PostBackup);
      DirHooksSnoc(hookPath, files, PreRestore);
      DirHooksSnoc(hookPath, files, PostRestore);
      assert TotalDirHooks(hookPath, files) == TotalDirHooks(hookPath, prefix) + (if EntryPhase(f).Some? then 1 else 0) by {
        match EntryPhase(f)
        case None =>
        case Some(PreBackup) =>
        case Some(PostBackup) =>
        case Some(PreRestore) =>
        case Some(PostRestore) =>
      }
    }
  }

  // ---------------------------------------------------------------------
  // getHooks

  /** The environment variable that lists a phase's hooks. */
  function EnvVar(p: Phase): string
  {
    match p
    case PreBackup => "BACKUPPREHOOKS"
    case PreRestore => "RESTOREPREHOOKS"
    case PostBackup => "BACKUPPOSTHOOKS"
    case PostRestore => "RESTOREPOSTHOOKS"
  }

  /** The hooks an environment variable lists: nothing when it is unset or
      `empty()`, otherwise its comma-separated pieces. */
  function EnvHooks(env: map<string, string>, p: Phase): seq<string>
  {
    var v := EnvVar(p);
    if v in env && !IsEmpty(env[v]) then Explode(env[v], ',') else []
  }

  /** `BACKUPHOOKDIR` when it is set and not `empty()`, else `<home>/Backup`. */
  function HookPath(env: map<string, string>, homeDir: string): string
  {
    if "BACKUPHOOKDIR" in env && !IsEmpty(env["BACKUPHOOKDIR"]) then env["BACKUPHOOKDIR"] else homeDir + "/Backup"
  }

  /** Recreating the requested queues empty. */
  function Reset(q: HookQueues, kind: string): (r: HookQueues)
  {
    map p | p in q.Keys + {PreBackup, PostBackup, PreRestore, PostRestore} && (p in q || Requested(kind, p))
      :: if Requested(kind, p) then [] else q[p]
  }

  lemma ResetQueue(q: HookQueues, kind: string, p: Phase)
    ensures p in Reset(q, kind) <==> p in q || Requested(kind, p)
    ensures p in Reset(q, kind) ==> Reset(q, kind)[p] == if Requested(kind, p) then [] else q[p]
  {
  }

  /** The environment lists, pushed in the order BACKUPPREHOOKS,
      RESTOREPREHOOKS, BACKUPPOSTHOOKS, RESTOREPOSTHOOKS. */
  function WithEnvHooks(q: HookQueues, env: map<string, string>): HookQueues
  {
    var q1 := PushAll(q, PreBackup, EnvHooks(env, PreBackup));
    var q2 := PushAll(q1, PreRestore, EnvHooks(env, PreRestore));
    var q3 := PushAll(q2, PostBackup, EnvHooks(env, PostBackup));
    PushAll(q3, PostRestore, EnvHooks(env, PostRestore))
  }

  /** Each existing queue receives its own variable's list; no queue is created. */
  lemma WithEnvHooksPerPhase(q: HookQueues, env: map<string, string>, p: Phase)
    ensures WithEnvHooks(q, env).Keys == q.Keys
    ensures p in q ==> WithEnvHooks(q, env)[p] == q[p] + EnvHooks(env, p)
  {
    var q1 := PushAll(q, PreBackup, EnvHooks(env, PreBackup));
    var q2 := PushAll(q1, PreRestore, EnvHooks(env, PreRestore));
    var q3 := PushAll(q2, PostBackup, EnvHooks(env, PostBackup));
    PushAllAppends(q, PreBackup, EnvHooks(env, PreBackup));
    PushAllAppends(q1, PreRestore, EnvHooks(env, PreRestore));
    PushAllAppends(q2, PostBackup, EnvHooks(env, PostBackup));
    PushAllAppends(q3, PostRestore, EnvHooks(env, PostRestore));
  }

  /** `getHooks($kind)`. `dirs` holds the existing directories with their
      entries in iteration order. */
  function GetHooks(q: HookQueues, kind: string, env: map<string, string>, homeDir: string,
                    dirs: map<string, seq<HookFile>>): (r: HookQueues)
    ensures forall p :: p in r <==> p in q || Requested(kind, p)
  {
    var reset := Reset(q, kind);
    var hookPath := HookPath(env, homeDir);
    ResetKeys(q, kind);
    if hookPath !in dirs then reset
    else
      WithDirQueue(reset, env, hookPath, dirs[hookPath], PreBackup);
      DirFold(WithEnvHooks(reset, env), hookPath, dirs[hookPath])
  }

  /** The reset keeps every queue and creates the requested ones. */
  lemma ResetKeys(q: HookQueues, kind: string)
    ensures forall p :: p in Reset(q, kind) <==> p in q || Requested(kind, p)
  {
    forall p
      ensures p in Reset(q, kind) <==> p in q || Requested(kind, p)
    {
      ResetQueue(q, kind, p);
    }
  }

  /** What each queue holds after `getHooks`: a requested queue starts empty,
      an existing one keeps its entries; then come the phase's environment
      hooks and its directory hooks, in that order, both only when the hook
      directory exists. A queue that neither existed nor was requested stays
      absent whatever the environment and the directory hold. */
  lemma GetHooksQueues(q: HookQueues, kind: string, env: map<string, string>, homeDir: string,
                       dirs: map<string, seq<HookFile>>, p: Phase)
    ensures var r := GetHooks(q, kind, env, homeDir, dirs);
            var hookPath := HookPath(env, homeDir);
            && (p in r <==> p in q || Requested(kind, p))
            && (p in r ==> r[p] == (if Requested(kind, p) then [] else q[p])
                                     + (if hookPath in dirs then EnvHooks(env, p) + DirHooks(hookPath, dirs[hookPath], p) else []))
  {
    var reset := Reset(q, kind);
    ResetQueue(q, kind, p);
    var hookPath := HookPath(env, homeDir);
    if hookPath in dirs {
      WithDirQueue(reset, env, hookPath, dirs[hookPath], p);
    }
  }

  /** With a hook directory, a queue existing after the reset receives the
      environment hooks and then the directory hooks. */
  lemma WithDirQueue(reset: HookQueues, env: map<string, string>, hookPath: string, files: seq<HookFile>, p: Phase)
    ensures DirFold(WithEnvHooks(reset, env), hookPath, files).Keys == reset.Keys
    ensures p in reset ==>
              DirFold(WithEnvHooks(reset, env), hookPath, files)[p] == reset[p] + (EnvHooks(env, p) + DirHooks(hookPath, files, p))
  {
    var w := WithEnvHooks(reset, env);
    WithEnvHooksPerPhase(reset, env, p);
    DirFoldPerPhase(w, hookPath, files, p);
    if p in reset {
      WithDirQueueContent(reset[p], w[p], DirFold(w, hookPath, files)[p], EnvHooks(env, p), DirHooks(hookPath, files, p));
    }
  }

  lemma WithDirQueueContent(start: seq<string>, mid: seq<string>, last: seq<string>, e: seq<string>, d: seq<string>)
    requires mid == start + e && last == mid + d
    ensures last == start + (e + d)
  {
  }

  /** Without a hook directory the environment lists are ignored too: the
      requested queues come back empty. */
  lemma NoHookDirNoHooks(q: HookQueues, kind: string, env: map<string, string>, homeDir: string,
                         dirs: map<string, seq<HookFile>>, p: Phase)
    requires HookPath(env, homeDir) !in dirs
    requires Requested(kind, p)
    ensures var r := GetHooks(q, kind, env, homeDir, dirs);
            p in r && r[p] == []
  {
    ResetQueue(q, kind, p);
  }
}
