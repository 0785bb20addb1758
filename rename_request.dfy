/** The body of a rename request and the JSON object it sends to the bridge (`DeviceRenameRequest`),
    together with the permit-join body (`PermitRequest`). A `null` field is `None`. */
module RenameRequest {
  import opened Wrappers
  import opened JsonTree

  /** A Java `String` that may be null, as JSON. */
  function TextOrNull(s: Option<string>): Json
  {
    match s
    case None => JNull
    case Some(t) => JStr(t)
  }

  datatype DeviceRenameRequest = DeviceRenameRequest(
    oldName: Option<string>,
    newName: Option<string>,
    homeAssistantRename: Option<bool>)
  {
    /** `toJson`: `{"data": {"from": oldName, "to": newName, "homeassistant_rename": flag}}`, the
        flag true exactly when it was `Boolean.TRUE`. */
    function ToJson(): (j: Json)
      ensures j.JObj? && j.fields.Keys == {"data"}
      ensures j.fields["data"].JObj? && j.fields["data"].fields.Keys == {"from", "to", "homeassistant_rename"}
      ensures j.fields["data"].fields["homeassistant_rename"] == JBool(homeAssistantRename == Some(true))
      ensures ReadRename(j) == Some((oldName, newName, homeAssistantRename == Some(true)))
    {
      var data := map["from" := TextOrNull(oldName), "to" := TextOrNull(newName),
                       "homeassistant_rename" := JBool(homeAssistantRename == Some(true))];
      JObj(map["data" := JObj(data)])
    }
  }

  /** Reads a rename body back: the old name, the new name and the flag. */
  function ReadRename(j: Json): Option<(Option<string>, Option<string>, bool)>
  {
    if j.JObj? && "data" in j.fields && j.fields["data"].JObj? then
      var data := j.fields["data"].fields;
      if "from" in data && "to" in data && "homeassistant_rename" in data
         && (data["from"].JNull? || data["from"].JStr?)
         && (data["to"].JNull? || data["to"].JStr?)
         && data["homeassistant_rename"].JBool?
      then Some((if data["from"].JStr? then Some(data["from"].s) else None,
                 if data["to"].JStr? then Some(data["to"].s) else None,
                 data["homeassistant_rename"].b))
      else None
    else None
  }

  /** Two requests send the same body exactly when they name the same devices and agree on
      whether the flag is `Boolean.TRUE`: a null flag and `false` are not told apart. */
  lemma RenameBodyDeterminesRequest(a: DeviceRenameRequest, b: DeviceRenameRequest)
    ensures a.ToJson() == b.ToJson() <==>
              a.oldName == b.oldName && a.newName == b.newName
              && (a.homeAssistantRename == Some(true)) == (b.homeAssistantRename == Some(true))
  {
    if a.ToJson() == b.ToJson() {
      assert ReadRename(a.ToJson()) == ReadRename(b.ToJson());
    }
  }

  /** `PermitRequest.toJson`: `{"value": value}`. */
  function PermitJson(value: Option<bool>): (j: Json)
    ensures j.JObj? && j.fields.Keys == {"value"}
    ensures value.Some? ==> j.fields["value"] == JBool(value.value)
  {
    JObj(map["value" := match value case None => JNull case Some(v) => JBool(v)])
  }
}
