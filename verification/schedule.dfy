/** Cron scheduling of backups (`scheduleJobs`). The crontab is a list of
    lines; the cron helper drops lines equal to a given line (`remove`),
    drops lines containing a given command (`removeAll`) and appends a line
    unless it is already present (`add`). */
module Schedule {
  import opened PhpStrings

  type CronTab = seq<string>

  /** The text every backup cron line carries. */
  const Marker: string := "fwconsole backup"

  /** The entries of `tab` not in `drop`, in order. */
  function Keep(tab: CronTab, drop: set<string>): CronTab
    decreases |tab|
  {
    if |tab| == 0 then []
    else
      var e := tab[|tab| - 1];
      Keep(tab[..|tab| - 1], drop) + (if e in drop then [] else [e])
  }

  /** `remove($line)`: every entry equal to `line` is dropped. */
  function Remove(tab: CronTab, line: string): CronTab
  {
    Keep(tab, {line})
  }

  /** `removeAll($cmd)`: every entry containing `cmd` is dropped. */
  function RemoveAll(tab: CronTab, cmd: string): CronTab
    decreases |tab|
  {
    if |tab| == 0 then []
    else
      var e := tab[|tab| - 1];
      RemoveAll(tab[..|tab| - 1], cmd) + (if Contains(e, cmd) then [] else [e])
  }

  /** `removeAll` keeps exactly the entries that do not contain the command. */
  lemma {:induction false} RemoveAllMembers(tab: CronTab, cmd: string)
    ensures forall e :: e in RemoveAll(tab, cmd) <==> e in tab && !Contains(e, cmd)
    decreases |tab|
  {
    if |tab| > 0 {
      var prefix := tab[..|tab| - 1];
      RemoveAllMembers(prefix, cmd);
      assert tab == prefix + [tab[|tab| - 1]];
    }
  }

  /** `add($line)`. */
  function Add(tab: CronTab, line: string): CronTab
  {
    if line in tab then tab else tab + [line]
  }

  lemma {:induction false} KeepNothing(tab: CronTab)
    ensures Keep(tab, {}) == tab
    decreases |tab|
  {
    if |tab| > 0 {
      KeepNothing(tab[..|tab| - 1]);
    }
  }

  lemma {:induction false} KeepKeep(tab: CronTab, a: set<string>, b: set<string>)
    ensures Keep(Keep(tab, a), b) == Keep(tab, a + b)
    decreases |tab|
  {
    if |tab| > 0 {
      var prefix := tab[..|tab| - 1];
      var e := tab[|tab| - 1];
      KeepKeep(prefix, a, b);
      var k := Keep(tab, a);
      if e !in a {
        assert k[..|k| - 1] == Keep(prefix, a);
      } else {
        assert k == Keep(prefix, a);
      }
    }
  }

  /** Dropping by `removeAll` is dropping the entries that contain the command. */
  lemma {:induction false} RemoveAllIsKeep(tab: CronTab, cmd: string, drop: set<string>)
    requires forall e :: e in tab ==> (e in drop <==> Contains(e, cmd))
    ensures RemoveAll(tab, cmd) == Keep(tab, drop)
    decreases |tab|
  {
    if |tab| > 0 {
      var prefix := tab[..|tab| - 1];
      assert forall e :: e in prefix ==> e in tab;
      RemoveAllIsKeep(prefix, cmd, drop);
    }
  }

  /** `removeAll` leaves a crontab alone when no entry contains the command. */
  lemma {:induction false} RemoveAllNoMatch(tab: CronTab, cmd: string)
    requires forall e :: e in tab ==> !Contains(e, cmd)
    ensures RemoveAll(tab, cmd) == tab
    decreases |tab|
  {
    if |tab| > 0 {
      var prefix, e := tab[..|tab| - 1], tab[|tab| - 1];
      assert e in tab;
      forall x | x in prefix
        ensures !Contains(x, cmd)
      {
        assert x in tab;
      }
      RemoveAllNoMatch(prefix, cmd);
      assert prefix + [e] == tab;
    }
  }

  // ---------------------------------------------------------------------
  // The clean slate

  /** The clean-slate loop: for each line of the crontab as it was read,
      remove it when it holds the marker. */
  function Wipe(current: CronTab, entries: seq<string>): CronTab
    decreases |entries|
  {
    if |entries| == 0 then current
    else
      var c := Wipe(current, entries[..|entries| - 1]);
      var e := entries[|entries| - 1];
      if Contains(e, Marker) then Remove(c, e) else c
  }

  function CleanSlate(tab: CronTab): CronTab
  {
    Wipe(tab, tab)
  }

  lemma {:induction false} WipeDropsMarked(current: CronTab, entries: seq<string>)
    ensures Wipe(current, entries) == Keep(current, set e | e in entries && Contains(e, Marker))
    decreases |entries|
  {
    if |entries| == 0 {
      KeepNothing(current);
      assert (set e | e in entries && Contains(e, Marker)) == {};
    } else {
      var prefix := entries[..|entries| - 1];
      var last := entries[|entries| - 1];
      WipeDropsMarked(current, prefix);
      var before := set e | e in prefix && Contains(e, Marker);
      assert entries == prefix + [last];
      if Contains(last, Marker) {
        KeepKeep(current, before, {last});
        assert before + {last} == set e | e in entries && Contains(e, Marker);
      } else {
        assert before == set e | e in entries && Contains(e, Marker);
      }
    }
  }

  /** The clean slate removes exactly the lines holding the marker and keeps
      every other line, in order. */
  lemma CleanSlateRemovesBackupLines(tab: CronTab)
    ensures CleanSlate(tab) == RemoveAll(tab, Marker)
    ensures forall e :: e in CleanSlate(tab) <==> e in tab && !Contains(e, Marker)
  {
    WipeDropsMarked(tab, tab);
    RemoveAllIsKeep(tab, Marker, set e | e in tab && Contains(e, Marker));
  }

  // ---------------------------------------------------------------------
  // Backup cron lines

  /** Per-backup settings: backup id -> setting name -> value. */
  type Settings = map<string, map<string, string>>

  /** `getConfig($name, $id)`, with a missing setting read as "" (PHP's false
      concatenates as ""). */
  function Setting(settings: Settings, id: string, name: string): string
  {
    if id in settings && name in settings[id] then settings[id][name] else ""
  }

  predicate Enabled(settings: Settings, id: string)
  {
    Setting(settings, id, "schedule_enabled") == "yes"
  }

  predicate WarmSpare(settings: Settings, id: string)
  {
    Setting(settings, id, "warmspareenabled") == "yes"
  }

  function Flag(warm: bool): string
  {
    if warm then "--warmspare" else ""
  }

  /** `sprintf($sbin.'/fwconsole backup --backup=%s %s> /dev/null 2>&1', $id, $flag)`. */
  function Command(sbin: string, id: string, warm: bool): string
  {
    (sbin + "/") + Marker + (" --backup=" + id + " " + Flag(warm) + "> /dev/null 2>&1")
  }

  /** The cron line of a backup: its schedule, a space, its command. */
  function Line(schedule: string, cmd: string): (r: string)
    ensures Contains(r, cmd)
  {
    ContainsInfix(schedule + " ", cmd, "");
    assert schedule + " " + cmd + "" == schedule + " " + cmd;
    schedule + " " + cmd
  }

  lemma CommandHasMarker(sbin: string, id: string, warm: bool)
    ensures Contains(Command(sbin, id, warm), Marker)
  {
    ContainsInfix(sbin + "/", Marker, " --backup=" + id + " " + Flag(warm) + "> /dev/null 2>&1");
  }

  function CommandOf(settings: Settings, sbin: string, id: string): string
  {
    Command(sbin, id, WarmSpare(settings, id))
  }

  function LineOf(settings: Settings, sbin: string, id: string): string
  {
    Line(Setting(settings, id, "backup_schedule"), CommandOf(settings, sbin, id))
  }

  /** Scheduling one enabled backup: drop every line holding its command,
      then add its line. */
  function Install(tab: CronTab, schedule: string, cmd: string): CronTab
  {
    Add(RemoveAll(tab, cmd), Line(schedule, cmd))
  }

  /** The loop over the backup list after the clean slate. */
  function AddLoop(tab: CronTab, settings: Settings, sbin: string, ids: seq<string>): CronTab
    decreases |ids|
  {
    if |ids| == 0 then tab
    else
      var t := AddLoop(tab, settings, sbin, ids[..|ids| - 1]);
      var id := ids[|ids| - 1];
      if Enabled(settings, id) then Install(t, Setting(settings, id, "backup_schedule"), CommandOf(settings, sbin, id))
      else t
  }

  /** `scheduleJobs('all')`: clean slate, then a line for each enabled backup
      of the list `ids` (in list order). Whatever the settings, the lines
      without the marker survive, in order, ahead of the backup lines. */
  function SyncAll(tab: CronTab, settings: Settings, sbin: string, ids: seq<string>): (r: CronTab)
    ensures RemoveAll(tab, Marker) <= r
  {
    CleanSlateRemovesBackupLines(tab);
    AddLoopKeepsBase(CleanSlate(tab), settings, sbin, ids);
    AddLoop(CleanSlate(tab), settings, sbin, ids)
  }

  /** The loop over the backup list never touches lines without the marker. */
  lemma {:induction false} AddLoopKeepsBase(base: CronTab, settings: Settings, sbin: string, ids: seq<string>)
    requires forall e :: e in base ==> !Contains(e, Marker)
    ensures base <= AddLoop(base, settings, sbin, ids)
    decreases |ids|
  {
    if |ids| > 0 {
      var prefix, id := ids[..|ids| - 1], ids[|ids| - 1];
      AddLoopKeepsBase(base, settings, sbin, prefix);
      if Enabled(settings, id) {
        var t := AddLoop(base, settings, sbin, prefix);
        InstallKeepsBase(base, t[|base|..], Setting(settings, id, "backup_schedule"), sbin, id, WarmSpare(settings, id));
        assert t == base + t[|base|..];
      }
    }
  }

  /** Installing a backup's command keeps a leading run of lines without the marker. */
  lemma InstallKeepsBase(base: CronTab, rest: CronTab, schedule: string, sbin: string, id: string, warm: bool)
    requires forall e :: e in base ==> !Contains(e, Marker)
    ensures base <= Install(base + rest, schedule, Command(sbin, id, warm))
  {
    var cmd := Command(sbin, id, warm);
    forall e | e in base
      ensures !Contains(e, cmd)
    {
      CommandHasMarker(sbin, id, warm);
      if Contains(e, cmd) {
        ContainsTransitive(e, cmd, Marker);
      }
    }
    RemoveAllConcat(base, rest, cmd);
    RemoveAllNoMatch(base, cmd);
  }

  /** `removeAll` works line by line. */
  lemma {:induction false} RemoveAllConcat(a: CronTab, b: CronTab, cmd: string)
    ensures RemoveAll(a + b, cmd) == RemoveAll(a, cmd) + RemoveAll(b, cmd)
    decreases |b|
  {
    if |b| == 0 {
      assert a + b == a;
    } else {
      var prefix, e := b[..|b| - 1], b[|b| - 1];
      RemoveAllConcat(a, prefix, cmd);
      assert (a + b)[..|a + b| - 1] == a + prefix;
      var tail := if Contains(e, cmd) then [] else [e];
      assert RemoveAll(a + b, cmd) == RemoveAll(a + prefix, cmd) + tail;
      assert RemoveAll(b, cmd) == RemoveAll(prefix, cmd) + tail;
      assert (RemoveAll(a, cmd) + RemoveAll(prefix, cmd)) + tail == RemoveAll(a, cmd) + (RemoveAll(prefix, cmd) + tail);
    }
  }

  /** Installing a command replaces every line holding it with its one line,
      at the end. */
  lemma InstallReplaces(tab: CronTab, schedule: string, cmd: string)
    ensures Install(tab, schedule, cmd) == RemoveAll(tab, cmd) + [Line(schedule, cmd)]
  {
    RemoveAllMembers(tab, cmd);
  }

  /** The lines a full sync is meant to produce: one per enabled backup, in list order. */
  function Planned(settings: Settings, sbin: string, ids: seq<string>): seq<string>
    decreases |ids|
  {
    if |ids| == 0 then []
    else
      var id := ids[|ids| - 1];
      Planned(settings, sbin, ids[..|ids| - 1]) + (if Enabled(settings, id) then [LineOf(settings, sbin, id)] else [])
  }

  /** Every planned line is the line of an enabled backup of the list. */
  lemma {:induction false} PlannedLines(settings: Settings, sbin: string, ids: seq<string>)
    ensures forall e :: e in Planned(settings, sbin, ids) ==>
              exists j :: 0 <= j < |ids| && Enabled(settings, ids[j]) && e == LineOf(settings, sbin, ids[j])
    decreases |ids|
  {
    if |ids| > 0 {
      var prefix := ids[..|ids| - 1];
      PlannedLines(settings, sbin, prefix);
      forall e | e in Planned(settings, sbin, ids)
        ensures exists j :: 0 <= j < |ids| && Enabled(settings, ids[j]) && e == LineOf(settings, sbin, ids[j])
      {
        if e in Planned(settings, sbin, prefix) {
          var j :| 0 <= j < |prefix| && Enabled(settings, prefix[j]) && e == LineOf(settings, sbin, prefix[j]);
          assert prefix[j] == ids[j];
        } else {
          assert ids[|ids| - 1] == ids[|ids| - 1];
        }
      }
    }
  }

  /** No enabled backup's command occurs in another enabled backup's line (it
      holds, for instance, when backup ids are distinct and schedules hold no
      command text). */
  predicate NoCollision(settings: Settings, sbin: string, ids: seq<string>)
  {
    forall i, j :: 0 <= i < |ids| && 0 <= j < |ids| && i != j && Enabled(settings, ids[i]) && Enabled(settings, ids[j]) ==>
      !Contains(LineOf(settings, sbin, ids[j]), CommandOf(settings, sbin, ids[i]))
  }

  /** Installing a command leaves alone the lines without the marker. */
  lemma {:induction false} AddLoopAppends(base: CronTab, settings: Settings, sbin: string, ids: seq<string>)
    requires forall e :: e in base ==> !Contains(e, Marker)
    requires NoCollision(settings, sbin, ids)
    ensures AddLoop(base, settings, sbin, ids) == base + Planned(settings, sbin, ids)
    decreases |ids|
  {
    if |ids| == 0 {
      assert base + [] == base;
    } else {
      NoCollisionPrefix(settings, sbin, ids);
      AddLoopAppends(base, settings, sbin, ids[..|ids| - 1]);
      AddLoopAppendsStep(base, settings, sbin, ids);
    }
  }

  /** One more backup of the list extends both the loop and the plan by its line. */
  lemma AddLoopAppendsStep(base: CronTab, settings: Settings, sbin: string, ids: seq<string>)
    requires forall e :: e in base ==> !Contains(e, Marker)
    requires |ids| > 0 && NoCollision(settings, sbin, ids)
    requires AddLoop(base, settings, sbin, ids[..|ids| - 1]) == base + Planned(settings, sbin, ids[..|ids| - 1])
    ensures AddLoop(base, settings, sbin, ids) == base + Planned(settings, sbin, ids)
  {
    var prefix, id := ids[..|ids| - 1], ids[|ids| - 1];
    if Enabled(settings, id) {
      var t := base + Planned(settings, sbin, prefix);
      NoEarlierLineHoldsCommand(base, settings, sbin, ids);
      InstallAppends(t, Setting(settings, id, "backup_schedule"), CommandOf(settings, sbin, id));
      var line := LineOf(settings, sbin, id);
      assert t + [line] == base + (Planned(settings, sbin, prefix) + [line]);
    }
  }

  /** Installing a command no line holds yet appends its line. */
  lemma InstallAppends(tab: CronTab, schedule: string, cmd: string)
    requires forall e :: e in tab ==> !Contains(e, cmd)
    ensures Install(tab, schedule, cmd) == tab + [Line(schedule, cmd)]
  {
    RemoveAllNoMatch(tab, cmd);
  }

  lemma NoCollisionPrefix(settings: Settings, sbin: string, ids: seq<string>)
    requires |ids| > 0 && NoCollision(settings, sbin, ids)
    ensures NoCollision(settings, sbin, ids[..|ids| - 1])
  {
    var prefix := ids[..|ids| - 1];
    forall i, j | 0 <= i < |prefix| && 0 <= j < |prefix| && i != j && Enabled(settings, prefix[i]) && Enabled(settings, prefix[j])
      ensures !Contains(LineOf(settings, sbin, prefix[j]), CommandOf(settings, sbin, prefix[i]))
    {
      assert prefix[i] == ids[i] && prefix[j] == ids[j];
    }
  }

  /** Before the last backup of the list is installed, no line holds its
      command: the base lines lack the marker and the earlier lines are other
      backups' lines. */
  lemma NoEarlierLineHoldsCommand(base: CronTab, settings: Settings, sbin: string, ids: seq<string>)
    requires forall e :: e in base ==> !Contains(e, Marker)
    requires |ids| > 0 && NoCollision(settings, sbin, ids) && Enabled(settings, ids[|ids| - 1])
    ensures var cmd := CommandOf(settings, sbin, ids[|ids| - 1]);
            forall e :: e in base + Planned(settings, sbin, ids[..|ids| - 1]) ==> !Contains(e, cmd)
  {
    var n := |ids| - 1;
    var prefix, id := ids[..n], ids[n];
    var cmd := CommandOf(settings, sbin, id);
    PlannedLines(settings, sbin, prefix);
    forall e | e in base + Planned(settings, sbin, prefix)
      ensures !Contains(e, cmd)
    {
      if e in base {
        CommandHasMarker(sbin, id, WarmSpare(settings, id));
        if Contains(e, cmd) {
          ContainsTransitive(e, cmd, Marker);
        }
      } else {
        var j :| 0 <= j < |prefix| && Enabled(settings, prefix[j]) && e == LineOf(settings, sbin, prefix[j]);
        assert prefix[j] == ids[j];
      }
    }
  }

  /** A full sync keeps every line without the marker, in order, and then
      holds exactly the planned lines: one per enabled backup, in list order. */
  lemma SyncAllResult(tab: CronTab, settings: Settings, sbin: string, ids: seq<string>)
    requires NoCollision(settings, sbin, ids)
    ensures SyncAll(tab, settings, sbin, ids) == RemoveAll(tab, Marker) + Planned(settings, sbin, ids)
  {
    CleanSlateRemovesBackupLines(tab);
    AddLoopAppends(CleanSlate(tab), settings, sbin, ids);
  }

  /** Number of entries containing `cmd`. */
  function CountContaining(tab: CronTab, cmd: string): (n: nat)
    ensures n <= |tab|
    decreases |tab|
  {
    if |tab| == 0 then 0
    else CountContaining(tab[..|tab| - 1], cmd) + (if Contains(tab[|tab| - 1], cmd) then 1 else 0)
  }

  lemma {:induction false} CountContainingConcat(a: CronTab, b: CronTab, cmd: string)
    ensures CountContaining(a + b, cmd) == CountContaining(a, cmd) + CountContaining(b, cmd)
    decreases |b|
  {
    if |b| > 0 {
      var prefix := b[..|b| - 1];
      assert (a + b)[..|a + b| - 1] == a + prefix;
      CountContainingConcat(a, prefix, cmd);
    } else {
      assert a + b == a;
    }
  }

  lemma {:induction false} CountContainingNone(tab: CronTab, cmd: string)
    requires forall e :: e in tab ==> !Contains(e, cmd)
    ensures CountContaining(tab, cmd) == 0
    decreases |tab|
  {
    if |tab| > 0 {
      CountContainingNone(tab[..|tab| - 1], cmd);
    }
  }

  lemma {:induction false} PlannedCountsOnce(settings: Settings, sbin: string, ids: seq<string>, k: nat)
    requires NoCollision(settings, sbin, ids)
    requires k < |ids| && Enabled(settings, ids[k])
    ensures CountContaining(Planned(settings, sbin, ids), CommandOf(settings, sbin, ids[k])) == 1
    decreases |ids|
  {
    var n := |ids| - 1;
    var prefix := ids[..n];
    var cmd := CommandOf(settings, sbin, ids[k]);
    var prev := Planned(settings, sbin, prefix);
    var tail := if Enabled(settings, ids[n]) then [LineOf(settings, sbin, ids[n])] else [];
    CountContainingConcat(prev, tail, cmd);
    if k == n {
      PlannedLines(settings, sbin, prefix);
      forall e | e in prev
        ensures !Contains(e, cmd)
      {
        var j :| 0 <= j < |prefix| && Enabled(settings, prefix[j]) && e == LineOf(settings, sbin, prefix[j]);
        assert prefix[j] == ids[j];
      }
      CountContainingNone(prev, cmd);
      assert tail == [LineOf(settings, sbin, ids[n])];
      assert tail[..0] == [];
    } else {
      assert NoCollision(settings, sbin, prefix) by {
        forall i, j | 0 <= i < |prefix| && 0 <= j < |prefix| && i != j && Enabled(settings, prefix[i]) && Enabled(settings, prefix[j])
          ensures !Contains(LineOf(settings, sbin, prefix[j]), CommandOf(settings, sbin, prefix[i]))
        {
          assert prefix[i] == ids[i] && prefix[j] == ids[j];
        }
      }
      assert prefix[k] == ids[k];
      PlannedCountsOnce(settings, sbin, prefix, k);
      if Enabled(settings, ids[n]) {
        assert tail[..0] == [];
        assert !Contains(LineOf(settings, sbin, ids[n]), cmd);
      }
    }
  }

  /** After a full sync exactly one cron line runs each enabled backup. */
  lemma OneLinePerEnabledBackup(tab: CronTab, settings: Settings, sbin: string, ids: seq<string>, k: nat)
    requires NoCollision(settings, sbin, ids)
    requires k < |ids| && Enabled(settings, ids[k])
    ensures CountContaining(SyncAll(tab, settings, sbin, ids), CommandOf(settings, sbin, ids[k])) == 1
  {
    var cmd := CommandOf(settings, sbin, ids[k]);
    SyncAllResult(tab, settings, sbin, ids);
    CountContainingConcat(RemoveAll(tab, Marker), Planned(settings, sbin, ids), cmd);
    RemoveAllMembers(tab, Marker);
    forall e | e in RemoveAll(tab, Marker)
      ensures !Contains(e, cmd)
    {
      CommandHasMarker(sbin, ids[k], WarmSpare(settings, ids[k]));
      if Contains(e, cmd) {
        ContainsTransitive(e, cmd, Marker);
      }
    }
    CountContainingNone(RemoveAll(tab, Marker), cmd);
    PlannedCountsOnce(settings, sbin, ids, k);
  }

  /** After a full sync no cron line runs a backup whose schedule is not
      enabled, provided no enabled backup's line happens to contain its command. */
  lemma DisabledBackupHasNoLine(tab: CronTab, settings: Settings, sbin: string, ids: seq<string>, id: string)
    requires NoCollision(settings, sbin, ids)
    requires !Enabled(settings, id)
    requires forall j :: 0 <= j < |ids| && Enabled(settings, ids[j]) ==> !Contains(LineOf(settings, sbin, ids[j]), CommandOf(settings, sbin, id))
    ensures CountContaining(SyncAll(tab, settings, sbin, ids), CommandOf(settings, sbin, id)) == 0
  {
    var cmd := CommandOf(settings, sbin, id);
    SyncAllResult(tab, settings, sbin, ids);
    RemoveAllMembers(tab, Marker);
    PlannedLines(settings, sbin, ids);
    CommandHasMarker(sbin, id, WarmSpare(settings, id));
    forall e | e in RemoveAll(tab, Marker) + Planned(settings, sbin, ids)
      ensures !Contains(e, cmd)
    {
      if e in RemoveAll(tab, Marker) {
        if Contains(e, cmd) {
          ContainsTransitive(e, cmd, Marker);
        }
      }
    }
    CountContainingNone(RemoveAll(tab, Marker) + Planned(settings, sbin, ids), cmd);
  }

  // ---------------------------------------------------------------------
  // Scheduling a single backup

  /** The single-backup command as written: a space before `>`. */
  function SingleCommandAsWritten(sbin: string, id: string, warm: bool): string
  {
    (sbin + "/") + Marker + (" --backup=" + id + " " + Flag(warm) + " > /dev/null 2>&1")
  }

  /** `scheduleJobs($id)` as written: for an enabled backup other than 'all'
      the command is built with a space before `>` (unlike the full sync) and
      with the warm-spare setting read for an undefined backup id, whose value
      is `strayWarm`. A disabled backup falls through to the full sync. */
  function ScheduleOneAsWritten(tab: CronTab, settings: Settings, sbin: string, ids: seq<string>, id: string, strayWarm: bool): (r: CronTab)
    ensures id != "all" && Enabled(settings, id) ==>
              var cmd := SingleCommandAsWritten(sbin, id, strayWarm);
              r == RemoveAll(tab, cmd) + [Line(Setting(settings, id, "backup_schedule"), cmd)]
  {
    if id != "all" && Enabled(settings, id) then
      var cmd := SingleCommandAsWritten(sbin, id, strayWarm);
      InstallReplaces(tab, Setting(settings, id, "backup_schedule"), cmd);
      Install(tab, Setting(settings, id, "backup_schedule"), cmd)
    else SyncAll(tab, settings, sbin, ids)
  }

  /** `scheduleJobs($id)` with the single-backup command built exactly as the
      full sync builds it, from the backup's own warm-spare setting. */
  function ScheduleOne(tab: CronTab, settings: Settings, sbin: string, ids: seq<string>, id: string): (r: CronTab)
    ensures id != "all" && Enabled(settings, id) ==>
              r == RemoveAll(tab, CommandOf(settings, sbin, id)) + [LineOf(settings, sbin, id)]
  {
    if id != "all" && Enabled(settings, id) then
      InstallReplaces(tab, Setting(settings, id, "backup_schedule"), CommandOf(settings, sbin, id));
      Install(tab, Setting(settings, id, "backup_schedule"), CommandOf(settings, sbin, id))
    else SyncAll(tab, settings, sbin, ids)
  }

  /** A single id that is not enabled (or the id 'all') falls through to the
      full sync, as written and corrected alike. */
  lemma DisabledSingleIsFullSync(tab: CronTab, settings: Settings, sbin: string, ids: seq<string>, id: string, strayWarm: bool)
    requires id == "all" || !Enabled(settings, id)
    ensures ScheduleOne(tab, settings, sbin, ids, id) == SyncAll(tab, settings, sbin, ids)
    ensures ScheduleOneAsWritten(tab, settings, sbin, ids, id, strayWarm) == SyncAll(tab, settings, sbin, ids)
  {
  }

  lemma {:induction false} PlannedHasLine(settings: Settings, sbin: string, ids: seq<string>, k: nat)
    requires k < |ids| && Enabled(settings, ids[k])
    ensures LineOf(settings, sbin, ids[k]) in Planned(settings, sbin, ids)
    decreases |ids|
  {
    var n := |ids| - 1;
    if k < n {
      assert ids[..n][k] == ids[k];
      PlannedHasLine(settings, sbin, ids[..n], k);
    }
  }

  /** As written, scheduling a backup (warm spare off) right after a full sync
      leaves two lines that run it: the full sync's line survives because its
      command differs from the single one by a space, and the new line is
      added beside it. The schedule is assumed free of '/' and the sbin
      directory absolute, so the single command cannot occur in the old line. */
  lemma SingleScheduleDuplicates(tab: CronTab, settings: Settings, sbin: string, ids: seq<string>, k: nat)
    requires NoCollision(settings, sbin, ids)
    requires k < |ids| && ids[k] != "all" && Enabled(settings, ids[k]) && !WarmSpare(settings, ids[k])
    requires |sbin| > 0 && sbin[0] == '/'
    requires forall c :: 0 <= c < |Setting(settings, ids[k], "backup_schedule")| ==> Setting(settings, ids[k], "backup_schedule")[c] != '/'
    ensures var id := ids[k];
            var sched := Setting(settings, id, "backup_schedule");
            var r := ScheduleOneAsWritten(SyncAll(tab, settings, sbin, ids), settings, sbin, ids, id, false);
            && LineOf(settings, sbin, id) in r
            && Line(sched, SingleCommandAsWritten(sbin, id, false)) in r
            && LineOf(settings, sbin, id) != Line(sched, SingleCommandAsWritten(sbin, id, false))
  {
    var id := ids[k];
    var sched := Setting(settings, id, "backup_schedule");
    var synced := SyncAll(tab, settings, sbin, ids);
    var full := LineOf(settings, sbin, id);
    var single := SingleCommandAsWritten(sbin, id, false);
    SyncAllResult(tab, settings, sbin, ids);
    PlannedHasLine(settings, sbin, ids, k);
    assert full in synced;
    assert |full| == |sched| + |single|;
    forall i | 0 <= i <= |full| - |single|
      ensures full[i] != single[0]
    {
      assert single[0] == sbin[0];
      if i < |sched| {
        assert full[i] == sched[i];
      } else {
        assert full[i] == ' ';
      }
    }
    NotContainsByFirstChar(full, single);
    RemoveAllMembers(synced, single);
    assert full in RemoveAll(synced, single);
  }

  /** As written, the backup's own warm-spare setting has no effect on a
      single schedule: switching it off gives the same crontab. */
  lemma SingleScheduleIgnoresWarmSpare(tab: CronTab, settings: Settings, sbin: string, ids: seq<string>, id: string, strayWarm: bool)
    requires id != "all" && Enabled(settings, id) && WarmSpare(settings, id)
    ensures var off := settings[id := settings[id]["warmspareenabled" := "no"]];
            ScheduleOneAsWritten(tab, settings, sbin, ids, id, strayWarm) == ScheduleOneAsWritten(tab, off, sbin, ids, id, strayWarm)
  {
    var off := settings[id := settings[id]["warmspareenabled" := "no"]];
    assert "schedule_enabled"[0] != "warmspareenabled"[0];
    assert "backup_schedule"[0] != "warmspareenabled"[0];
    assert Enabled(off, id);
    assert Setting(off, id, "backup_schedule") == Setting(settings, id, "backup_schedule");
  }

  /** With the correction the flag follows the backup's setting: switching it
      off changes the line that is added. */
  lemma SingleScheduleHonoursWarmSpare(tab: CronTab, settings: Settings, sbin: string, ids: seq<string>, id: string)
    requires id != "all" && Enabled(settings, id) && WarmSpare(settings, id)
    ensures var off := settings[id := settings[id]["warmspareenabled" := "no"]];
            && Line(Setting(settings, id, "backup_schedule"), Command(sbin, id, true)) in ScheduleOne(tab, settings, sbin, ids, id)
            && ScheduleOne(tab, settings, sbin, ids, id) != ScheduleOne(tab, off, sbin, ids, id)
  {
    var off := settings[id := settings[id]["warmspareenabled" := "no"]];
    var sched := Setting(settings, id, "backup_schedule");
    assert "schedule_enabled"[0] != "warmspareenabled"[0];
    assert "backup_schedule"[0] != "warmspareenabled"[0];
    assert "no"[0] != "yes"[0];
    assert Enabled(off, id) && !WarmSpare(off, id);
    assert Setting(off, id, "backup_schedule") == sched;
    var on, offR := ScheduleOne(tab, settings, sbin, ids, id), ScheduleOne(tab, off, sbin, ids, id);
    var lineOn, lineOff := Line(sched, Command(sbin, id, true)), Line(sched, Command(sbin, id, false));
    RemoveAllMembers(tab, Command(sbin, id, true));
    RemoveAllMembers(tab, Command(sbin, id, false));
    assert on == RemoveAll(tab, Command(sbin, id, true)) + [lineOn];
    assert offR == RemoveAll(tab, Command(sbin, id, false)) + [lineOff];
    assert |lineOn| == |lineOff| + 11;
    assert on[|on| - 1] != offR[|offR| - 1];
  }

  /** Scheduling one enabled backup keeps every line not running it, in
      order, and leaves exactly one line that runs it, whatever the crontab
      held before (a full sync included). */
  lemma ScheduleOneKeepsOneLine(tab: CronTab, settings: Settings, sbin: string, ids: seq<string>, id: string)
    requires id != "all" && Enabled(settings, id)
    ensures var cmd := CommandOf(settings, sbin, id);
            var r := ScheduleOne(tab, settings, sbin, ids, id);
            && r == RemoveAll(tab, cmd) + [LineOf(settings, sbin, id)]
            && CountContaining(r, cmd) == 1
  {
    var cmd := CommandOf(settings, sbin, id);
    var kept := RemoveAll(tab, cmd);
    var line := LineOf(settings, sbin, id);
    RemoveAllMembers(tab, cmd);
    assert line !in kept;
    CountContainingConcat(kept, [line], cmd);
    CountContainingNone(kept, cmd);
    assert [line][..0] == [];
  }
}
