/** Reading a backup's settings (`getBackup`) and replacing the module list
    of a backup (`setModulesById`) in the module's key/value store. */
module BackupSettings {

  /** The fields a backup carries, in declaration order. The list names
      `warmspare_remotenat` twice. */
  const BackupFields: seq<string> := [
    "backup_name", "backup_description", "backup_items", "backup_storage",
    "backup_schedule", "schedule_enabled", "maintage", "maintruns",
    "backup_email", "backup_emailtype", "immortal", "warmspareenabled",
    "warmspare_remotetrunks", "warmspare_remotenat", "warmspare_remotebind",
    "warmspare_remotenat", "warmspare_remotedns", "warmspare_remoteapply",
    "warmspare_remoteip", "warmspare_user", "publickey"
  ]

  predicate IsField(key: string)
  {
    key in BackupFields
  }

  /** `getBackup($id)` on the stored group `data` of the backup: nothing when
      the group is empty, otherwise every field, with "" for a field that is
      not stored. Stored keys that are not fields are dropped. */
  function GetBackup(data: map<string, string>): (r: map<string, string>)
    ensures data == map[] ==> r == map[]
    ensures data != map[] ==> forall k :: k in r <==> IsField(k)
    ensures forall k :: k in r && k in data ==> r[k] == data[k]
    ensures forall k :: k in r && k !in data ==> r[k] == ""
  {
    if data == map[] then map[]
    else map k | k in BackupFields :: if k in data then data[k] else ""
  }

  /** Reading back what was read changes nothing. */
  lemma GetBackupIdempotent(data: map<string, string>)
    ensures GetBackup(GetBackup(data)) == GetBackup(data)
  {
    var r := GetBackup(data);
    if data != map[] {
      assert BackupFields[0] in r;
    }
  }

  /** A backup stored with exactly its fields is read back unchanged, and the
      result has one entry per distinct field: the repeated name collapses,
      so 21 declared names give 20 keys. */
  lemma GetBackupStoredFields(data: map<string, string>)
    requires data != map[] && data.Keys == set k | k in BackupFields
    ensures GetBackup(data) == data
    ensures BackupFields[13] == BackupFields[15] && |BackupFields| == 21
  {
  }

  // ---------------------------------------------------------------------
  // setModulesById

  /** One entry of the module list a client sends: `modulename` may be missing. */
  type ModuleEntry = map<string, string>

  /** The module groups of the store: group name -> module names set to true. */
  type ModuleStore = map<string, set<string>>

  function ModuleGroup(id: string): string
  {
    "modules_" + id
  }

  /** The module names the entries carry. */
  function ModuleNames(modules: seq<ModuleEntry>): (names: set<string>)
    ensures forall m :: m in names <==> exists i :: 0 <= i < |modules| && "modulename" in modules[i] && modules[i]["modulename"] == m
    decreases |modules|
  {
    if |modules| == 0 then {}
    else
      var last := modules[|modules| - 1];
      var prev := ModuleNames(modules[..|modules| - 1]);
      assert forall i :: 0 <= i < |modules| - 1 ==> modules[..|modules| - 1][i] == modules[i];
      prev + (if "modulename" in last then {last["modulename"]} else {})
  }

  datatype ModulesResult = ModulesResult(store: ModuleStore, modules: set<string>)

  /** `setModulesById($id, $modules)`: delete the backup's module group, then
      set each named module; return the group as stored. An empty group is
      absent from the store. */
  function SetModulesById(store: ModuleStore, id: string, modules: seq<ModuleEntry>): (r: ModulesResult)
    ensures r.modules == ModuleNames(modules)
    ensures ModuleNames(modules) != {} ==> ModuleGroup(id) in r.store && r.store[ModuleGroup(id)] == r.modules
    ensures ModuleNames(modules) == {} ==> ModuleGroup(id) !in r.store
    ensures forall g :: g != ModuleGroup(id) ==> (g in r.store <==> g in store) && (g in store ==> r.store[g] == store[g])
  {
    var group := ModuleGroup(id);
    var cleared := store - {group};
    var names := ModuleNames(modules);
    if names == {} then ModulesResult(cleared, names)
    else ModulesResult(cleared[group := names], names)
  }

  /** The previous module list is replaced, not merged: the result does not
      depend on what the store held for the backup, and setting the same
      list twice is the same as setting it once. */
  lemma SetModulesReplaces(store: ModuleStore, other: ModuleStore, id: string, modules: seq<ModuleEntry>)
    requires forall g :: g != ModuleGroup(id) ==> (g in store <==> g in other) && (g in store ==> store[g] == other[g])
    ensures SetModulesById(store, id, modules) == SetModulesById(other, id, modules)
    ensures SetModulesById(SetModulesById(store, id, modules).store, id, modules) == SetModulesById(store, id, modules)
  {
    var a, b := SetModulesById(store, id, modules), SetModulesById(other, id, modules);
    assert a.store.Keys == b.store.Keys;
    var c := SetModulesById(a.store, id, modules);
    assert c.store.Keys == a.store.Keys;
  }
}
