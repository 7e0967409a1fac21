/** The module's page buttons (`getActionBar`) and the whitelist of ajax
    commands (`ajaxRequest`). */
module Ui {
  import opened Wrappers
  import opened PhpStrings

  /** One button: its key in the returned array and its `name`, `id` and
      (untranslated) `value`. */
  datatype Button = Button(key: string, name: string, id: string, value: string)

  /** The request fields the action bar looks at; `None` is an unset field. */
  datatype PageRequest = PageRequest(view: Option<string>, display: Option<string>, id: Option<string>)

  function Keys(buttons: seq<Button>): (keys: seq<string>)
    ensures |keys| == |buttons|
    ensures forall i :: 0 <= i < |buttons| ==> keys[i] == buttons[i].key
  {
    seq(|buttons|, i requires 0 <= i < |buttons| => buttons[i].key)
  }

  /** `unset($buttons[$key])`. */
  function Unset(buttons: seq<Button>, key: string): seq<Button>
    decreases |buttons|
  {
    if |buttons| == 0 then []
    else
      var b := buttons[|buttons| - 1];
      Unset(buttons[..|buttons| - 1], key) + (if b.key == key then [] else [b])
  }

  const ResetButton := Button("reset", "reset", "reset", "Reset")
  const SubmitButton := Button("submit", "submit", "submit", "Save")
  const RunButton := Button("run", "run", "run_backup", "Save and Run")
  const DeleteButton := Button("delete", "delete", "delete", "Delete")

  /** The request names an existing backup: `id` is set and not `empty()`. */
  predicate EditsBackup(req: PageRequest)
  {
    req.id.Some? && !IsEmpty(req.id.value)
  }

  /** The generic button set, less "Save and Run" on the backup/restore
      landing page, and less both "Save and Run" and "Delete" when no backup
      is being edited. */
  function GenericButtons(landing: bool, editing: bool): seq<Button>
  {
    var buttons := [ResetButton, SubmitButton, RunButton, DeleteButton];
    var buttons := if landing then Unset(buttons, "run") else buttons;
    if !editing then Unset(Unset(buttons, "delete"), "run") else buttons
  }

  /** `getActionBar($request)`. */
  function ActionBar(req: PageRequest): (buttons: seq<Button>)
    ensures req.view.None? ==> buttons == []
  {
    if req.view.None? then []
    else if req.view.value == "processrestore" then
      [Button("run", "runrestore", "runrestore", "Run Restore"), Button("back", "goback", "goback", "Go Back")]
    else GenericButtons(req.display == Some("backup_restore"), EditsBackup(req))
  }

  /** The generic buttons come in a fixed order: reset, save, then "Save and
      Run" and "Delete" when they apply. */
  lemma GenericButtonsOrder(landing: bool, editing: bool)
    ensures GenericButtons(landing, editing) == [ResetButton, SubmitButton]
                              + (if !landing && editing then [RunButton] else [])
                              + (if editing then [DeleteButton] else [])
  {
    if landing {
      UnsetGeneric("run");
      if !editing {
        UnsetThird(DeleteButton);
        UnsetPair("run");
      }
    } else if !editing {
      UnsetGeneric("delete");
      UnsetThird(RunButton);
    }
  }

  /** Dropping the third of three buttons by its key. */
  lemma UnsetThird(b: Button)
    requires b == RunButton || b == DeleteButton
    ensures Unset([ResetButton, SubmitButton, b], b.key) == [ResetButton, SubmitButton]
  {
    var three := [ResetButton, SubmitButton, b];
    assert three[..2] == [ResetButton, SubmitButton];
    UnsetPair(b.key);
  }

  /** Which buttons a page shows: none outside a view, "Run Restore" and "Go
      Back" on the restore page, otherwise reset and save always, "Delete"
      exactly when a backup is being edited, and "Save and Run" exactly when
      a backup is being edited outside the backup/restore landing page. */
  lemma ActionBarButtons(req: PageRequest)
    ensures req.view.None? ==> ActionBar(req) == []
    ensures req.view == Some("processrestore") ==>
              ActionBar(req) == [Button("run", "runrestore", "runrestore", "Run Restore"), Button("back", "goback", "goback", "Go Back")]
    ensures req.view.Some? && req.view != Some("processrestore") ==>
              && 2 <= |ActionBar(req)| <= 4
              && ActionBar(req)[..2] == [ResetButton, SubmitButton]
              && (RunButton in ActionBar(req) <==> req.display != Some("backup_restore") && EditsBackup(req))
              && (DeleteButton in ActionBar(req) <==> EditsBackup(req))
  {
    if req.view.Some? && req.view != Some("processrestore") {
      GenericButtonsOrder(req.display == Some("backup_restore"), EditsBackup(req));
    }
  }

  lemma UnsetPair(key: string)
    requires key == "run" || key == "delete"
    ensures Unset([ResetButton, SubmitButton], key) == [ResetButton, SubmitButton]
  {
    var pair := [ResetButton, SubmitButton];
    assert ResetButton.key != key by {
      assert |ResetButton.key| == 5;
    }
    assert SubmitButton.key != key by {
      assert SubmitButton.key[0] == 's' && key[0] != 's';
    }
    assert pair[..1] == [ResetButton];
    assert pair[..1][..0] == [];
    assert Unset(pair[..1], key) == Unset([], key) + [ResetButton];
    assert Unset(pair, key) == Unset(pair[..1], key) + [SubmitButton];
  }

  lemma UnsetGeneric(key: string)
    requires key == "run" || key == "delete"
    ensures Unset([ResetButton, SubmitButton, RunButton, DeleteButton], key)
         == if key == "run" then [ResetButton, SubmitButton, DeleteButton] else [ResetButton, SubmitButton, RunButton]
  {
    var all := [ResetButton, SubmitButton, RunButton, DeleteButton];
    assert all[..3] == [ResetButton, SubmitButton, RunButton];
    assert all[..3][..2] == [ResetButton, SubmitButton];
    UnsetPair(key);
  }

  // ---------------------------------------------------------------------
  // ajaxRequest

  /** The commands the ajax endpoint accepts. */
  const AllowedCommands: set<string> := {
    "getJSON", "runBackup", "runRestore", "remotedownload", "deleteRemote",
    "localdownload", "localRestoreFiles", "restoreFiles", "uploadrestore",
    "generateRSA", "deleteLocal", "getRestoreLog", "deleteBackup",
    "restorestatus", "backupstatus"
  }

  /** The long-running status streams. */
  const StatusCommands: set<string> := {"restorestatus", "backupstatus"}

  datatype AjaxDecision = AjaxDecision(allowed: bool, setting: map<string, bool>)

  /** `ajaxRequest($command, $setting)`: whether the command is accepted, and
      the request settings afterwards. */
  function AjaxRequest(command: string, setting: map<string, bool>): (d: AjaxDecision)
    ensures d.allowed <==> command in AllowedCommands
    ensures command in StatusCommands ==> d.setting == setting["changesession" := false]
    ensures command !in StatusCommands ==> d.setting == setting
  {
    match command
    case "getJSON" => AjaxDecision(true, setting)
    case "runBackup" => AjaxDecision(true, setting)
    case "runRestore" => AjaxDecision(true, setting)
    case "remotedownload" => AjaxDecision(true, setting)
    case "deleteRemote" => AjaxDecision(true, setting)
    case "localdownload" => AjaxDecision(true, setting)
    case "localRestoreFiles" => AjaxDecision(true, setting)
    case "restoreFiles" => AjaxDecision(true, setting)
    case "uploadrestore" => AjaxDecision(true, setting)
    case "generateRSA" => AjaxDecision(true, setting)
    case "deleteLocal" => AjaxDecision(true, setting)
    case "getRestoreLog" => AjaxDecision(true, setting)
    case "deleteBackup" => AjaxDecision(true, setting)
    case "restorestatus" => AjaxDecision(true, setting["changesession" := false])
    case "backupstatus" => AjaxDecision(true, setting["changesession" := false])
    case _ => AjaxDecision(false, setting)
  }

  /** The commands whose handlers this model covers are all accepted, and
      only the two status streams release the session: after them
      `changesession` is false whatever it was, after any other command it
      is untouched. */
  lemma HandledCommandsAccepted(setting: map<string, bool>)
    ensures forall c :: c in {"runBackup", "runRestore", "uploadrestore", "restorestatus", "backupstatus"} ==> AjaxRequest(c, setting).allowed
    ensures forall c :: c in StatusCommands ==> AjaxRequest(c, setting).setting["changesession"] == false
    ensures forall c :: c !in StatusCommands ==> AjaxRequest(c, setting).setting == setting
  {
  }
}
