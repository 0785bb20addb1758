/** Command dispatch (`DeviceCommandService`): command templates stored per device model, a cache
    of each model's commands, the substitution of parameters into a JSON object template, and the
    sending of the result to the device's `<friendlyName>/set` topic. The `commands` table stands
    for `DeviceCommandRepository`. */
module CommandDispatch {
  import opened Wrappers
  import opened Exceptions
  import opened Values
  import opened JsonTree
  import opened Dto
  import Tables
  import TopicRouting
  import DeviceDirectory

  /** A row of `device_commands`. */
  datatype DeviceCommand = DeviceCommand(
    id: int,
    modelId: string,
    commandName: string,
    commandTemplate: string,
    description: string)

  function CommandId(c: DeviceCommand): int { c.id }

  /** The fields of `DeviceCommandCreateRequest`, which updates carry as well. */
  datatype CommandRequest = CommandRequest(modelId: string, commandName: string, commandTemplate: string, description: string)

  const SendFailed := "Failed newName send command newName device"
  const TemplateFailed := "Failed newName process command template"

  /** `findByModelId`: the model's commands, in table order. */
  function FindCommandsByModelId(rows: seq<DeviceCommand>, modelId: string): (r: seq<DeviceCommand>)
    ensures forall c :: c in r <==> c in rows && c.modelId == modelId
  {
    if rows == [] then []
    else if rows[0].modelId == modelId then [rows[0]] + FindCommandsByModelId(rows[1..], modelId)
    else FindCommandsByModelId(rows[1..], modelId)
  }

  /** The list `getCommandsByModel` answers with: none for a null model id (the cache refuses a
      null key and the error is swallowed), the cached list when there is one, the table's
      otherwise. */
  function CommandsFor(cache: map<string, seq<DeviceCommand>>, rows: seq<DeviceCommand>, modelId: Option<string>): seq<DeviceCommand>
  {
    match modelId
    case None => []
    case Some(m) => if m in cache then cache[m] else FindCommandsByModelId(rows, m)
  }

  /** Every cached list is what the table holds for its model. */
  predicate Coherent(cache: map<string, seq<DeviceCommand>>, rows: seq<DeviceCommand>)
  {
    forall m :: m in cache ==> cache[m] == FindCommandsByModelId(rows, m)
  }

  /** `after` is `before` with zero or more entries added, each the table's list for its model:
      what `getCommandsByModel` does to the cache. */
  predicate Filled(before: map<string, seq<DeviceCommand>>, after: map<string, seq<DeviceCommand>>, rows: seq<DeviceCommand>)
  {
    && before.Keys <= after.Keys
    && (forall m :: m in before ==> after[m] == before[m])
    && (forall m :: m in after && m !in before ==> after[m] == FindCommandsByModelId(rows, m))
  }

  function ModelText(modelId: Option<string>): string
  {
    match modelId
    case None => "null"
    case Some(m) => m
  }

  /** `getCommandTemplate` once the model's commands are known: the template of the first command
      with the name. */
  function FindTemplate(commands: seq<DeviceCommand>, commandName: string, modelId: Option<string>): (r: Result<string, Exception>)
    ensures r.Success? <==> exists i :: 0 <= i < |commands| && commands[i].commandName == commandName
    ensures r.Failure? ==>
              r.error == Raise(Runtime, "Command not found: " + commandName + " for model: " + ModelText(modelId))
  {
    if commands == [] then Failure(Raise(Runtime, "Command not found: " + commandName + " for model: " + ModelText(modelId)))
    else if commands[0].commandName == commandName then Success(commands[0].commandTemplate)
    else
      assert forall i :: 1 <= i < |commands| ==> commands[i] == commands[1..][i - 1];
      FindTemplate(commands[1..], commandName, modelId)
  }

  /** The template found is that of the first command with the name. */
  lemma {:induction false} FindTemplateIsFirst(commands: seq<DeviceCommand>, commandName: string, modelId: Option<string>, k: int)
    requires 0 <= k < |commands| && commands[k].commandName == commandName
    requires forall j :: 0 <= j < k ==> commands[j].commandName != commandName
    ensures FindTemplate(commands, commandName, modelId) == Success(commands[k].commandTemplate)
  {
    if k > 0 {
      FindTemplateIsFirst(commands[1..], commandName, modelId, k - 1);
    }
  }

  /** The node `commandNode.put(key, value)` stores: a double node for every `Number`, integral
      or not, holding the number's value; a boolean node for a `Boolean`; a text node with the
      `toString()` text for anything else. A null value throws before any node is stored, so
      its node here is never written. */
  function ParameterNode(v: Value): (r: Json)
    ensures IsNumber(v) <==> r.JDouble?
    ensures v.Num? ==> ParseNumber(r.value) == Some(v.n)
    ensures v.Dec? ==> r == JDouble(v.digits)
    ensures v.Bool? <==> r.JBool?
    ensures v.Bool? ==> r.b == v.b
    ensures (v.Str? || v.Other?) <==> r.JStr?
    ensures (v.Str? || v.Other?) ==> r.s == ValueOf(v)
  {
    match v
    case Num(n) =>
      ParseIntToString(n);
      JDouble(IntToString(n))
    case Dec(digits) => JDouble(digits)
    case Bool(b) => JBool(b)
    case Str(s) => JStr(s)
    case Other(repr) => JStr(repr)
    case Null => JNull
  }

  /** The template's members after the parameters are put in: only keys the template already has
      are written. */
  function Substitute(fields: map<string, Json>, parameters: map<string, Value>): map<string, Json>
  {
    map k | k in fields :: if k in parameters then ParameterNode(parameters[k]) else fields[k]
  }

  /** Some template key is given a null value, whose `toString()` throws. */
  predicate NullOnTemplateKey(fields: map<string, Json>, parameters: map<string, Value>)
  {
    exists k :: k in parameters && k in fields && parameters[k].Null?
  }

  /** What `replaceCommandParameters` returns or throws. */
  function SubstituteParameters(mapper: ObjectMapper, template: string, parameters: map<string, Value>): Result<string, Exception>
  {
    if |parameters| == 0 then Success(template)
    else
      match mapper.readTree(template)
      case None => Failure(Wrap(CommandExecution, TemplateFailed, Exception(JsonProcessing, None, None)))
      case Some(tree) =>
        if !tree.JObj? then Failure(Exception(ClassCast, None, None))
        else if NullOnTemplateKey(tree.fields, parameters) then Failure(Exception(NullPointer, None, None))
        else Success(mapper.writeValueAsString(JObj(Substitute(tree.fields, parameters))))
  }

  /** Substitution keeps exactly the template's keys: parameter keys the template lacks are
      dropped, template keys the parameters lack keep their values, and the others take the
      parameter's node. */
  lemma SubstituteTouchesOnlyTemplateKeys(fields: map<string, Json>, parameters: map<string, Value>)
    ensures Substitute(fields, parameters).Keys == fields.Keys
    ensures forall k :: k in fields && k !in parameters ==> Substitute(fields, parameters)[k] == fields[k]
    ensures forall k :: k in fields && k in parameters ==> Substitute(fields, parameters)[k] == ParameterNode(parameters[k])
    ensures forall k :: k in fields && k in parameters && IsNumber(parameters[k]) ==> Substitute(fields, parameters)[k].JDouble?
  {
  }

  /** The request that `executeCommand` turns into an outbound message, and what it sends: to
      `<friendlyName>/set` of the first listed device with the request's name, the template of
      that device's model's command with the parameters put in. */
  function PrepareCommand(
    devices: seq<DeviceDirectory.DeviceResponse>,
    cache: map<string, seq<DeviceCommand>>,
    rows: seq<DeviceCommand>,
    mapper: ObjectMapper,
    request: SendDeviceCommandRequest): Result<TopicRouting.Message, Exception>
  {
    match DeviceDirectory.FindNamed(devices, request.deviceName)
    case None => Failure(Raise(DeviceNotFound, "Device not found: " + request.deviceName))
    case Some(device) =>
      match FindTemplate(CommandsFor(cache, rows, device.modelId), request.commandName, device.modelId)
      case Failure(e) => Failure(e)
      case Success(template) =>
        match SubstituteParameters(mapper, template, request.parameters)
        case Failure(e) => Failure(e)
        case Success(command) => Success(TopicRouting.Message(device.friendlyName + "/set", command))
  }

  /** A prepared command goes to the requested device's own `set` topic; with no parameters it
      is the stored template verbatim. */
  lemma PreparedCommandTarget(
    devices: seq<DeviceDirectory.DeviceResponse>, cache: map<string, seq<DeviceCommand>>, rows: seq<DeviceCommand>,
    mapper: ObjectMapper, request: SendDeviceCommandRequest)
    requires PrepareCommand(devices, cache, rows, mapper, request).Success?
    ensures PrepareCommand(devices, cache, rows, mapper, request).value.topic == request.deviceName + "/set"
    ensures |request.parameters| == 0 ==>
              var device := DeviceDirectory.FindNamed(devices, request.deviceName).value;
              FindTemplate(CommandsFor(cache, rows, device.modelId), request.commandName, device.modelId)
                == Success(PrepareCommand(devices, cache, rows, mapper, request).value.payload)
  {
  }

  /** The three ways a command cannot be prepared: an unlisted device, a command the device's
      model lacks (always the case for a device without a model id), and a template that cannot
      take the parameters. */
  lemma PrepareCommandFailures(
    devices: seq<DeviceDirectory.DeviceResponse>, cache: map<string, seq<DeviceCommand>>, rows: seq<DeviceCommand>,
    mapper: ObjectMapper, request: SendDeviceCommandRequest)
    ensures !DeviceDirectory.Named(devices, request.deviceName) ==>
              PrepareCommand(devices, cache, rows, mapper, request)
                == Failure(Raise(DeviceNotFound, "Device not found: " + request.deviceName))
    ensures DeviceDirectory.Named(devices, request.deviceName) ==>
              var device := DeviceDirectory.FindNamed(devices, request.deviceName).value;
              var commands := CommandsFor(cache, rows, device.modelId);
              && (device.modelId.None? ==>
                    PrepareCommand(devices, cache, rows, mapper, request)
                      == Failure(Raise(Runtime, "Command not found: " + request.commandName + " for model: null")))
              && ((forall i :: 0 <= i < |commands| ==> commands[i].commandName != request.commandName) ==>
                    PrepareCommand(devices, cache, rows, mapper, request)
                      == Failure(Raise(Runtime, "Command not found: " + request.commandName + " for model: " + ModelText(device.modelId))))
    ensures DeviceDirectory.Named(devices, request.deviceName) && |request.parameters| > 0 ==>
              var device := DeviceDirectory.FindNamed(devices, request.deviceName).value;
              var found := FindTemplate(CommandsFor(cache, rows, device.modelId), request.commandName, device.modelId);
              found.Success? && mapper.readTree(found.value).None? ==>
                PrepareCommand(devices, cache, rows, mapper, request)
                  == Failure(Wrap(CommandExecution, TemplateFailed, Exception(JsonProcessing, None, None)))
  {
    assert "Command not found: " + request.commandName + " for model: " + ModelText(None)
        == "Command not found: " + request.commandName + " for model: null";
  }

  /** With a coherent cache the cache is invisible: preparing a command gives what the table
      alone gives. */
  lemma CoherentCacheIsTransparent(
    devices: seq<DeviceDirectory.DeviceResponse>, cache: map<string, seq<DeviceCommand>>, rows: seq<DeviceCommand>,
    mapper: ObjectMapper, request: SendDeviceCommandRequest)
    requires Coherent(cache, rows)
    ensures PrepareCommand(devices, cache, rows, mapper, request) == PrepareCommand(devices, map[], rows, mapper, request)
  {
    var found := DeviceDirectory.FindNamed(devices, request.deviceName);
    if found.Some? {
      assert CommandsFor(cache, rows, found.value.modelId) == CommandsFor(map[], rows, found.value.modelId);
    }
  }

  /** Appending a row changes no model's list but the row's own. */
  lemma {:induction false} FindCommandsAppend(rows: seq<DeviceCommand>, row: DeviceCommand, m: string)
    ensures FindCommandsByModelId(rows + [row], m) ==
              FindCommandsByModelId(rows, m) + if row.modelId == m then [row] else []
  {
    if rows != [] {
      assert (rows + [row])[1..] == rows[1..] + [row];
      FindCommandsAppend(rows[1..], row, m);
    } else {
      assert [row][1..] == [];
    }
  }

  /** Replacing or removing rows of one id changes no list of a model those rows are not in. */
  lemma {:induction false} FindCommandsUnaffected(rows: seq<DeviceCommand>, id: int, row: DeviceCommand, m: string)
    requires row.modelId != m
    requires forall i :: 0 <= i < |rows| && rows[i].id == id ==> rows[i].modelId != m
    ensures FindCommandsByModelId(Tables.ReplaceById(rows, CommandId, id, row), m) == FindCommandsByModelId(rows, m)
    ensures FindCommandsByModelId(Tables.RemoveById(rows, CommandId, id), m) == FindCommandsByModelId(rows, m)
  {
    if rows != [] {
      FindCommandsUnaffected(rows[1..], id, row, m);
      assert Tables.ReplaceById(rows, CommandId, id, row)[1..] == Tables.ReplaceById(rows[1..], CommandId, id, row);
    }
  }

  /** Creating a command and dropping its model's entry keeps a coherent cache coherent. */
  lemma CreateKeepsCoherence(cache: map<string, seq<DeviceCommand>>, rows: seq<DeviceCommand>, row: DeviceCommand)
    requires Coherent(cache, rows)
    ensures Coherent(cache - {row.modelId}, rows + [row])
  {
    forall m | m in cache - {row.modelId} ensures (cache - {row.modelId})[m] == FindCommandsByModelId(rows + [row], m) {
      FindCommandsAppend(rows, row, m);
    }
  }

  /** Under a primary key, the row found for an id is the only row with that id. */
  lemma OnlyRowWithItsId(rows: seq<DeviceCommand>, c: DeviceCommand)
    requires Tables.DistinctIds(rows, CommandId) && c in rows
    ensures forall i :: 0 <= i < |rows| && rows[i].id == c.id ==> rows[i] == c
  {
    var j :| 0 <= j < |rows| && rows[j] == c;
    assert forall i :: 0 <= i < |rows| && i != j ==> CommandId(rows[i]) != CommandId(rows[j]);
  }

  /** Deleting a command and dropping its model's entry keeps a coherent cache coherent. */
  lemma DeleteKeepsCoherence(cache: map<string, seq<DeviceCommand>>, rows: seq<DeviceCommand>, gone: DeviceCommand)
    requires Coherent(cache, rows)
    requires forall i :: 0 <= i < |rows| && rows[i].id == gone.id ==> rows[i].modelId == gone.modelId
    ensures Coherent(cache - {gone.modelId}, Tables.RemoveById(rows, CommandId, gone.id))
  {
    forall m | m in cache - {gone.modelId}
      ensures (cache - {gone.modelId})[m] == FindCommandsByModelId(Tables.RemoveById(rows, CommandId, gone.id), m)
    {
      FindCommandsUnaffected(rows, gone.id, gone, m);
    }
  }

  /** So does an update that leaves the command in its model. */
  lemma UpdateKeepsCoherence(cache: map<string, seq<DeviceCommand>>, rows: seq<DeviceCommand>, row: DeviceCommand)
    requires Coherent(cache, rows)
    requires forall i :: 0 <= i < |rows| && rows[i].id == row.id ==> rows[i].modelId == row.modelId
    ensures Coherent(cache - {row.modelId}, Tables.ReplaceById(rows, CommandId, row.id, row))
  {
    forall m | m in cache - {row.modelId}
      ensures (cache - {row.modelId})[m] == FindCommandsByModelId(Tables.ReplaceById(rows, CommandId, row.id, row), m)
    {
      FindCommandsUnaffected(rows, row.id, row, m);
    }
  }

  /** An update that moves a command to another model drops only the new model's entry, so the
      old model's cached list still holds the command: the cache is no longer coherent. */
  lemma UpdateAcrossModelsLeavesStaleEntry()
    ensures var before := DeviceCommand(1, "A", "on", "{}", "");
            var after := DeviceCommand(1, "B", "on", "{}", "");
            var cache := map["A" := [before]];
            var rows := Tables.ReplaceById([before], CommandId, 1, after);
            Coherent(cache, [before])
            && (cache - {after.modelId})["A"] == [before]
            && FindCommandsByModelId(rows, "A") == []
            && !Coherent(cache - {after.modelId}, rows)
  {
    var before := DeviceCommand(1, "A", "on", "{}", "");
    var after := DeviceCommand(1, "B", "on", "{}", "");
    assert Tables.ReplaceById([before], CommandId, 1, after) == [after];
    assert FindCommandsByModelId([after], "A") == [];
  }

  class DeviceCommandService {
    const mqttService: TopicRouting.MqttService
    const deviceService: DeviceDirectory.DeviceService
    const objectMapper: ObjectMapper
    var commands: seq<DeviceCommand>
    var nextCommandId: int
    var commandCache: map<string, seq<DeviceCommand>>

    ghost predicate Valid()
      reads this
    {
      Tables.DistinctIds(commands, CommandId) && forall i :: 0 <= i < |commands| ==> commands[i].id < nextCommandId
    }

    constructor (mqttService: TopicRouting.MqttService, deviceService: DeviceDirectory.DeviceService, objectMapper: ObjectMapper)
      ensures Valid() && commands == [] && commandCache == map[]
      ensures this.mqttService == mqttService && this.deviceService == deviceService && this.objectMapper == objectMapper
    {
      this.mqttService := mqttService;
      this.deviceService := deviceService;
      this.objectMapper := objectMapper;
      commands := [];
      nextCommandId := 1;
      commandCache := map[];
    }

    /** `createCommand`: the row is inserted and its model's cache entry dropped. */
    method CreateCommand(request: CommandRequest) returns (c: DeviceCommand)
      requires Valid()
      modifies this`commands, this`nextCommandId, this`commandCache
      ensures Valid()
      ensures c == DeviceCommand(old(nextCommandId), request.modelId, request.commandName, request.commandTemplate, request.description)
      ensures commands == old(commands) + [c] && nextCommandId == old(nextCommandId) + 1
      ensures commandCache == old(commandCache) - {request.modelId}
      ensures old(Coherent(commandCache, commands)) ==> Coherent(commandCache, commands)
    {
      c := DeviceCommand(nextCommandId, request.modelId, request.commandName, request.commandTemplate, request.description);
      if Coherent(commandCache, commands) {
        CreateKeepsCoherence(commandCache, commands, c);
      }
      commands := commands + [c];
      nextCommandId := nextCommandId + 1;
      commandCache := commandCache - {request.modelId};
    }

    /** `updateCommand`: the row takes the request's fields and the cache entry of the updated
        command's model, the new one, is dropped. An unknown id changes nothing. */
    method UpdateCommand(id: int, request: CommandRequest) returns (r: Result<DeviceCommand, Exception>)
      requires Valid()
      modifies this`commands, this`commandCache
      ensures Valid()
      ensures Tables.FindById(old(commands), CommandId, id).None? ==>
                r == Failure(Wrap(BaseRuntime, "Failed newName update command",
                                  Raise(RecordNotFound, "Command not found: " + IntToString(id))))
                && commands == old(commands) && commandCache == old(commandCache)
      ensures Tables.FindById(old(commands), CommandId, id).Some? ==>
                var row := DeviceCommand(id, request.modelId, request.commandName, request.commandTemplate, request.description);
                r == Success(row)
                && commands == Tables.ReplaceById(old(commands), CommandId, id, row)
                && commandCache == old(commandCache) - {request.modelId}
                && (old(Coherent(commandCache, commands))
                    && Tables.FindById(old(commands), CommandId, id).value.modelId == request.modelId
                    ==> Coherent(commandCache, commands))
    {
      var found := Tables.FindById(commands, CommandId, id);
      if found.None? {
        r := Failure(Wrap(BaseRuntime, "Failed newName update command",
                          Raise(RecordNotFound, "Command not found: " + IntToString(id))));
        return;
      }
      var row := DeviceCommand(id, request.modelId, request.commandName, request.commandTemplate, request.description);
      ReplaceRow(found.value, row);
      r := Success(row);
    }

    /** The stored row's id now carries the new row, and the new row's model leaves the cache. */
    method ReplaceRow(current: DeviceCommand, row: DeviceCommand)
      requires Valid() && current in commands && row.id == current.id
      modifies this`commands, this`commandCache
      ensures Valid()
      ensures commands == Tables.ReplaceById(old(commands), CommandId, row.id, row)
      ensures commandCache == old(commandCache) - {row.modelId}
      ensures old(Coherent(commandCache, commands)) && current.modelId == row.modelId ==> Coherent(commandCache, commands)
    {
      if Coherent(commandCache, commands) && current.modelId == row.modelId {
        OnlyRowWithItsId(commands, current);
        UpdateKeepsCoherence(commandCache, commands, row);
      }
      var updated := Tables.ReplaceById(commands, CommandId, row.id, row);
      assert current.id < nextCommandId;
      assert forall i :: 0 <= i < |commands| ==> CommandId(updated[i]) == CommandId(commands[i]);
      commands := updated;
      commandCache := commandCache - {row.modelId};
    }

    /** `deleteCommand`: the row goes and so does its model's cache entry. */
    method DeleteCommand(id: int) returns (r: Result<(), Exception>)
      requires Valid()
      modifies this`commands, this`commandCache
      ensures Valid()
      ensures Tables.FindById(old(commands), CommandId, id).None? ==>
                r == Failure(Wrap(BaseRuntime, "Failed newName delete command",
                                  Raise(RecordNotFound, "Command not found: " + IntToString(id))))
                && commands == old(commands) && commandCache == old(commandCache)
      ensures Tables.FindById(old(commands), CommandId, id).Some? ==>
                r == Success(())
                && commands == Tables.RemoveById(old(commands), CommandId, id)
                && commandCache == old(commandCache) - {Tables.FindById(old(commands), CommandId, id).value.modelId}
      ensures old(Coherent(commandCache, commands)) ==> Coherent(commandCache, commands)
    {
      var found := Tables.FindById(commands, CommandId, id);
      if found.None? {
        r := Failure(Wrap(BaseRuntime, "Failed newName delete command",
                          Raise(RecordNotFound, "Command not found: " + IntToString(id))));
        return;
      }
      RemoveRow(found.value);
      r := Success(());
    }

    /** The table without the stored row's id, and the cache without that row's model. */
    method RemoveRow(gone: DeviceCommand)
      requires Valid() && gone in commands
      modifies this`commands, this`commandCache
      ensures Valid()
      ensures commands == Tables.RemoveById(old(commands), CommandId, gone.id)
      ensures commandCache == old(commandCache) - {gone.modelId}
      ensures old(Coherent(commandCache, commands)) ==> Coherent(commandCache, commands)
    {
      if Coherent(commandCache, commands) {
        OnlyRowWithItsId(commands, gone);
        DeleteKeepsCoherence(commandCache, commands, gone);
      }
      var rest := Tables.RemoveById(commands, CommandId, gone.id);
      Tables.RemoveThenFind(commands, CommandId, gone.id, gone.id);
      forall i | 0 <= i < |rest| ensures rest[i].id < nextCommandId {
        assert rest[i] in commands;
      }
      commands := rest;
      commandCache := commandCache - {gone.modelId};
    }

    /** `getCommandsByModel`: the cached list for the model, or else the table's list, which is
        then cached, an empty one included. A null model id answers with no commands. */
    method GetCommandsByModel(modelId: Option<string>) returns (r: seq<DeviceCommand>)
      modifies this`commandCache
      ensures r == CommandsFor(old(commandCache), commands, modelId)
      ensures Filled(old(commandCache), commandCache, commands)
      ensures modelId.Some? ==> modelId.value in commandCache
      ensures modelId.None? || modelId.value in old(commandCache) ==> commandCache == old(commandCache)
      ensures old(Coherent(commandCache, commands)) ==> Coherent(commandCache, commands)
    {
      if modelId.None? {
        return [];
      }
      var key := modelId.value;
      if key in commandCache {
        r := commandCache[key];
      } else {
        r := FindCommandsByModelId(commands, key);
        commandCache := commandCache[key := r];
      }
    }

    /** `getCommandTemplate`: the template of the model's first command with the name. */
    method GetCommandTemplate(modelId: Option<string>, commandName: string) returns (r: Result<string, Exception>)
      modifies this`commandCache
      ensures r == FindTemplate(CommandsFor(old(commandCache), commands, modelId), commandName, modelId)
      ensures Filled(old(commandCache), commandCache, commands)
    {
      var list := GetCommandsByModel(modelId);
      r := FindTemplate(list, commandName, modelId);
    }

    /** `replaceCommandParameters`: each parameter whose key the template has overwrites that
        member; a template that is not an object, or a null value for one of its keys, fails. */
    method ReplaceCommandParameters(template: string, parameters: map<string, Value>) returns (r: Result<string, Exception>)
      ensures r == SubstituteParameters(objectMapper, template, parameters)
    {
      if |parameters| == 0 {
        return Success(template);
      }
      var tree := objectMapper.readTree(template);
      if tree.None? {
        return Failure(Wrap(CommandExecution, TemplateFailed, Exception(JsonProcessing, None, None)));
      }
      if !tree.value.JObj? {
        return Failure(Exception(ClassCast, None, None));
      }
      var fields := tree.value.fields;
      var node := fields;
      var pending := parameters.Keys;
      while pending != {}
        invariant pending <= parameters.Keys
        invariant node.Keys == fields.Keys
        invariant forall k :: k in node ==>
                    node[k] == if k in parameters && k !in pending then ParameterNode(parameters[k]) else fields[k]
        invariant forall k :: k in parameters && k !in pending && k in fields ==> !parameters[k].Null?
        decreases |pending|
      {
        var key :| key in pending;
        if key in node {
          var value := parameters[key];
          if value.Null? {
            return Failure(Exception(NullPointer, None, None));
          }
          node := node[key := ParameterNode(value)];
        }
        pending := pending - {key};
      }
      assert node == Substitute(fields, parameters);
      r := Success(objectMapper.writeValueAsString(JObj(node)));
    }

    /** `executeCommand`: the command prepared for the request is sent to `<friendlyName>/set`
        under the topic filter; any failure on the way comes back as a
        `CommandExecutionException` with the original as its cause, and nothing is sent. */
    method ExecuteCommand(request: SendDeviceCommandRequest) returns (r: Result<(), Exception>)
      modifies this`commandCache, mqttService`published
      ensures var p := PrepareCommand(deviceService.deviceList, old(commandCache), commands, objectMapper, request);
              && (p.Failure? ==> r == Failure(Wrap(CommandExecution, SendFailed, p.error))
                                 && mqttService.published == old(mqttService.published))
              && (p.Success? ==> r == Success(())
                                 && mqttService.published == old(mqttService.published) +
                                      if mqttService.connected
                                      then [TopicRouting.Message(mqttService.topicFilter + p.value.topic, p.value.payload)]
                                      else [])
      ensures Filled(old(commandCache), commandCache, commands)
    {
      var device := deviceService.GetDeviceById(request.deviceName);
      if device.Failure? {
        return Failure(Wrap(CommandExecution, SendFailed, device.error));
      }
      ghost var k :| 0 <= k < |deviceService.deviceList| && deviceService.deviceList[k] == device.value
                     && forall j :: 0 <= j < k ==> deviceService.deviceList[j].friendlyName != request.deviceName;
      DeviceDirectory.FindNamedIsFirst(deviceService.deviceList, request.deviceName, k);
      var modelId := device.value.modelId;
      var template := GetCommandTemplate(modelId, request.commandName);
      if template.Failure? {
        return Failure(Wrap(CommandExecution, SendFailed, template.error));
      }
      var finalCommand := ReplaceCommandParameters(template.value, request.parameters);
      if finalCommand.Failure? {
        return Failure(Wrap(CommandExecution, SendFailed, finalCommand.error));
      }
      var topic := device.value.friendlyName + "/set";
      mqttService.SendCommand(topic, finalCommand.value);
      r := Success(());
    }
  }
}
