/** The device directory (`DeviceService`): the in-memory device list that the bridge's device
    announcements reload and that the create, update and delete operations edit by friendly name,
    the routing of other messages to sensor events, and the rename and permit-join requests sent
    to the bridge. The `devices` table stands for `DeviceRepository`. */
module DeviceDirectory {
  import opened Wrappers
  import opened Exceptions
  import opened Values
  import opened JsonTree
  import Tables
  import TopicRouting
  import RenameRequest

  /** A row of the `devices` table. */
  datatype DeviceEntity = DeviceEntity(id: int, disabled: bool, friendlyName: string, modelId: Option<string>)

  function DeviceId(d: DeviceEntity): int { d.id }

  /** The fields of `DeviceCreateRequest` and of `DeviceUpdateRequest`. */
  datatype DeviceRequest = DeviceRequest(disabled: Option<bool>, friendlyName: string, modelId: Option<string>)

  /** The fields of `DeviceResponse` the services read; the descriptive fields of a bridge
      announcement are not modelled. */
  datatype DeviceResponse = DeviceResponse(id: Option<int>, disabled: Option<bool>, friendlyName: string, modelId: Option<string>)

  datatype ResponseMessage = ResponseMessage(status: int, data: Option<string>, message: string)

  /** Data handed to `SensorEventManager.publishEvent`. */
  datatype SensorEvent = SensorEvent(deviceName: string, data: map<string, Value>)

  const DeviceTopic := "bridge/devices"

  /** `deviceMapper.toResponse`. */
  function ToResponse(e: DeviceEntity): DeviceResponse
  {
    DeviceResponse(Some(e.id), Some(e.disabled), e.friendlyName, e.modelId)
  }

  /** `findAll().stream().map(deviceMapper::toResponse)`: one response per row, in row order. */
  function Responses(rows: seq<DeviceEntity>): (r: seq<DeviceResponse>)
    ensures |r| == |rows|
    ensures forall i :: 0 <= i < |rows| ==> r[i] == ToResponse(rows[i])
  {
    if rows == [] then [] else [ToResponse(rows[0])] + Responses(rows[1..])
  }

  predicate Named(list: seq<DeviceResponse>, name: string)
  {
    exists i :: 0 <= i < |list| && list[i].friendlyName == name
  }

  /** `filter(friendlyName equals name).findFirst()`. */
  function FindNamed(list: seq<DeviceResponse>, name: string): (r: Option<DeviceResponse>)
    ensures r.Some? <==> Named(list, name)
    ensures r.Some? ==> r.value in list && r.value.friendlyName == name
    ensures r.Some? ==> exists k :: 0 <= k < |list| && list[k] == r.value && forall j :: 0 <= j < k ==> list[j].friendlyName != name
  {
    if list == [] then None
    else if list[0].friendlyName == name then Some(list[0])
    else
      assert forall i :: 1 <= i < |list| ==> list[i] == list[1..][i - 1];
      FindNamed(list[1..], name)
  }

  /** The entry found is the first with the name. */
  lemma {:induction false} FindNamedIsFirst(list: seq<DeviceResponse>, name: string, k: int)
    requires 0 <= k < |list| && list[k].friendlyName == name
    requires forall j :: 0 <= j < k ==> list[j].friendlyName != name
    ensures FindNamed(list, name) == Some(list[k])
  {
    if k > 0 {
      FindNamedIsFirst(list[1..], name, k - 1);
    }
  }

  /** The list without its first entry of the given name. */
  function RemoveFirstNamed(list: seq<DeviceResponse>, name: string): (r: seq<DeviceResponse>)
  {
    if list == [] then []
    else if list[0].friendlyName == name then list[1..]
    else [list[0]] + RemoveFirstNamed(list[1..], name)
  }

  /** When the first entry with the name is at `k`, exactly that entry goes and all the others
      keep their order. */
  lemma {:induction false} RemoveFirstNamedAt(list: seq<DeviceResponse>, name: string, k: int)
    requires 0 <= k < |list| && list[k].friendlyName == name
    requires forall j :: 0 <= j < k ==> list[j].friendlyName != name
    ensures RemoveFirstNamed(list, name) == list[..k] + list[k + 1..]
  {
    if k > 0 {
      RemoveFirstNamedAt(list[1..], name, k - 1);
      assert list[1..][..k - 1] == list[1..k];
      assert list[1..][k..] == list[k + 1..];
      assert list[..k] == [list[0]] + list[1..k];
    }
  }

  /** With no entry of that name the list is unchanged. */
  lemma {:induction false} RemoveFirstNamedAbsent(list: seq<DeviceResponse>, name: string)
    requires !Named(list, name)
    ensures RemoveFirstNamed(list, name) == list
  {
    if list != [] {
      assert !Named(list[1..], name) by {
        forall i | 0 <= i < |list[1..]| ensures list[1..][i].friendlyName != name {
          assert list[1..][i] == list[i + 1];
        }
      }
      RemoveFirstNamedAbsent(list[1..], name);
    }
  }

  class DeviceService {
    const mqttService: TopicRouting.MqttService
    const readDeviceList: string -> Option<seq<DeviceResponse>>
    const readDeviceData: string -> Option<map<string, Value>>
    const jsonText: Json -> string
    var devices: seq<DeviceEntity>
    var nextDeviceId: int
    var deviceList: seq<DeviceResponse>
    var sensorEvents: seq<SensorEvent>

    ghost predicate Valid()
      reads this, mqttService
    {
      && Tables.DistinctIds(devices, DeviceId)
      && (forall i :: 0 <= i < |devices| ==> devices[i].id < nextDeviceId)
      && mqttService.Valid()
    }

    /** The service registers itself for the device announcements and for every other topic. */
    constructor (mqttService: TopicRouting.MqttService,
                 readDeviceList: string -> Option<seq<DeviceResponse>>,
                 readDeviceData: string -> Option<map<string, Value>>,
                 jsonText: Json -> string)
      requires mqttService.Valid()
      modifies mqttService
      ensures Valid()
      ensures this.mqttService == mqttService && this.readDeviceList == readDeviceList
      ensures this.readDeviceData == readDeviceData && this.jsonText == jsonText
      ensures devices == [] && deviceList == [] && sensorEvents == []
      ensures mqttService.topicListeners ==
                old(mqttService.topicListeners)[mqttService.topicFilter + DeviceTopic := this]
                                               [mqttService.topicFilter + "#" := this]
      ensures mqttService.published == old(mqttService.published)
    {
      this.mqttService := mqttService;
      this.readDeviceList := readDeviceList;
      this.readDeviceData := readDeviceData;
      this.jsonText := jsonText;
      devices := [];
      nextDeviceId := 1;
      deviceList := [];
      sensorEvents := [];
      new;
      mqttService.AddTopicListener(DeviceTopic, this);
      mqttService.AddTopicListener("#", this);
    }

    /** `getDeviceById`: the first listed device with the friendly name. */
    function GetDeviceById(deviceName: string): (r: Result<DeviceResponse, Exception>)
      reads this
      ensures r.Success? <==> Named(deviceList, deviceName)
      ensures r.Success? ==> r.value.friendlyName == deviceName
      ensures r.Success? ==> exists k :: 0 <= k < |deviceList| && deviceList[k] == r.value
                                         && forall j :: 0 <= j < k ==> deviceList[j].friendlyName != deviceName
      ensures r.Failure? ==> r.error == Raise(DeviceNotFound, "Device not found: " + deviceName)
    {
      match FindNamed(deviceList, deviceName)
      case Some(d) => Success(d)
      case None => Failure(Raise(DeviceNotFound, "Device not found: " + deviceName))
    }

    /** `removeDeviceFromList`: the first entry with the friendly name, if any, is removed. */
    method RemoveDeviceFromList(friendlyName: string)
      modifies this`deviceList
      ensures deviceList == RemoveFirstNamed(old(deviceList), friendlyName)
    {
      var i := 0;
      while i < |deviceList| && deviceList[i].friendlyName != friendlyName
        invariant 0 <= i <= |deviceList|
        invariant forall j :: 0 <= j < i ==> deviceList[j].friendlyName != friendlyName
      {
        i := i + 1;
      }
      if i < |deviceList| {
        RemoveFirstNamedAt(deviceList, friendlyName, i);
        deviceList := deviceList[..i] + deviceList[i + 1..];
      } else {
        RemoveFirstNamedAbsent(deviceList, friendlyName);
      }
    }

    /** `createDevice`: the row is inserted and its response appended to the list. The
        generated id is not read back, so the response carries none. A null `disabled` fails
        when the row is written, before anything changes. */
    method CreateDevice(request: DeviceRequest) returns (r: Result<DeviceResponse, Exception>)
      requires Valid()
      modifies this
      ensures Valid() && sensorEvents == old(sensorEvents)
      ensures request.disabled.None? ==>
                r == Failure(Rethrow(BaseRuntime, Exception(NullPointer, None, None)))
                && devices == old(devices) && deviceList == old(deviceList) && nextDeviceId == old(nextDeviceId)
      ensures request.disabled.Some? ==>
                r == Success(DeviceResponse(None, request.disabled, request.friendlyName, request.modelId))
                && devices == old(devices) + [DeviceEntity(old(nextDeviceId), request.disabled.value, request.friendlyName, request.modelId)]
                && nextDeviceId == old(nextDeviceId) + 1
                && deviceList == old(deviceList) + [r.value]
    {
      if request.disabled.None? {
        r := Failure(Rethrow(BaseRuntime, Exception(NullPointer, None, None)));
        return;
      }
      devices := devices + [DeviceEntity(nextDeviceId, request.disabled.value, request.friendlyName, request.modelId)];
      nextDeviceId := nextDeviceId + 1;
      var response := DeviceResponse(None, request.disabled, request.friendlyName, request.modelId);
      deviceList := deviceList + [response];
      r := Success(response);
    }

    /** `deviceRepository.update(id, row)` for a stored row's id: the key and the id bound stay. */
    method ReplaceRow(current: DeviceEntity, row: DeviceEntity)
      requires Valid() && current in devices && row.id == current.id
      modifies this`devices
      ensures Valid()
      ensures devices == Tables.ReplaceById(old(devices), DeviceId, row.id, row)
    {
      ghost var k :| 0 <= k < |devices| && devices[k] == current;
      assert row.id < nextDeviceId;
      var updated := Tables.ReplaceById(devices, DeviceId, row.id, row);
      assert forall i :: 0 <= i < |devices| ==> DeviceId(updated[i]) == DeviceId(devices[i]);
      devices := updated;
    }

    /** `updateDevice`: the device's old entry leaves the list before the row is written, and the
        new response is appended at the end. An unknown id changes nothing; a null `disabled`
        fails at the write, after the old entry has already left the list. */
    method UpdateDevice(id: int, request: DeviceRequest) returns (r: Result<DeviceResponse, Exception>)
      requires Valid()
      modifies this`devices, this`deviceList
      ensures Valid()
      ensures Tables.FindById(old(devices), DeviceId, id).None? ==>
                r == Failure(Rethrow(BaseRuntime, Raise(RecordNotFound, "Device not found: " + IntToString(id))))
                && devices == old(devices) && deviceList == old(deviceList)
      ensures Tables.FindById(old(devices), DeviceId, id).Some? ==>
                var old_entity := Tables.FindById(old(devices), DeviceId, id).value;
                var without := RemoveFirstNamed(old(deviceList), old_entity.friendlyName);
                if request.disabled.None? then
                  r == Failure(Rethrow(BaseRuntime, Exception(NullPointer, None, None)))
                  && devices == old(devices) && deviceList == without
                else
                  var row := DeviceEntity(id, request.disabled.value, request.friendlyName, request.modelId);
                  r == Success(ToResponse(row))
                  && devices == Tables.ReplaceById(old(devices), DeviceId, id, row)
                  && deviceList == without + [ToResponse(row)]
    {
      var found := Tables.FindById(devices, DeviceId, id);
      if found.None? {
        r := Failure(Rethrow(BaseRuntime, Raise(RecordNotFound, "Device not found: " + IntToString(id))));
        return;
      }
      RemoveDeviceFromList(found.value.friendlyName);
      if request.disabled.None? {
        r := Failure(Rethrow(BaseRuntime, Exception(NullPointer, None, None)));
        return;
      }
      var row := DeviceEntity(id, request.disabled.value, request.friendlyName, request.modelId);
      ReplaceRow(found.value, row);
      deviceList := deviceList + [ToResponse(row)];
      r := Success(ToResponse(row));
    }

    /** `deleteDevice`: the device's entry leaves the list and its row the table. */
    method DeleteDevice(id: int) returns (r: Result<(), Exception>)
      requires Valid()
      modifies this
      ensures Valid() && nextDeviceId == old(nextDeviceId) && sensorEvents == old(sensorEvents)
      ensures Tables.FindById(old(devices), DeviceId, id).None? ==>
                r == Failure(Rethrow(BaseRuntime, Raise(RecordNotFound, "Device not found: " + IntToString(id))))
                && devices == old(devices) && deviceList == old(deviceList)
      ensures Tables.FindById(old(devices), DeviceId, id).Some? ==>
                r == Success(())
                && deviceList == RemoveFirstNamed(old(deviceList), Tables.FindById(old(devices), DeviceId, id).value.friendlyName)
                && devices == Tables.RemoveById(old(devices), DeviceId, id)
    {
      var found := Tables.FindById(devices, DeviceId, id);
      if found.None? {
        r := Failure(Rethrow(BaseRuntime, Raise(RecordNotFound, "Device not found: " + IntToString(id))));
        return;
      }
      RemoveDeviceFromList(found.value.friendlyName);
      Tables.RemoveThenFind(devices, DeviceId, id, id);
      devices := Tables.RemoveById(devices, DeviceId, id);
      r := Success(());
    }

    /** `loadDevices`: the list becomes the table's devices followed by the announced ones, in
        order. An announcement that does not parse leaves the list as it was. */
    method LoadDevices(message: string) returns (r: Result<(), Exception>)
      modifies this`deviceList
      ensures readDeviceList(message).None? ==>
                r == Failure(Rethrow(BaseRuntime, Exception(JsonProcessing, None, None))) && deviceList == old(deviceList)
      ensures readDeviceList(message).Some? ==>
                r == Success(()) && deviceList == Responses(devices) + readDeviceList(message).value
    {
      var parsed := readDeviceList(message);
      if parsed.None? {
        r := Failure(Rethrow(BaseRuntime, Exception(JsonProcessing, None, None)));
        return;
      }
      deviceList := Responses(devices) + parsed.value;
      r := Success(());
    }

    /** `checkSensorData`: a message on a listed device's topic whose payload parses becomes a
        sensor event; any other message is dropped. */
    method CheckSensorData(topic: string, message: string)
      modifies this`sensorEvents
      ensures sensorEvents == old(sensorEvents) +
                if Named(deviceList, topic) && readDeviceData(message).Some?
                then [SensorEvent(topic, readDeviceData(message).value)] else []
    {
      var device := FindNamed(deviceList, topic);
      if device.Some? {
        var data := readDeviceData(message);
        if data.Some? {
          sensorEvents := sensorEvents + [SensorEvent(topic, data.value)];
        }
      }
    }

    /** `onMessage`: the device announcements reload the list; every other topic is sensor data. */
    method OnMessage(topic: string, message: string) returns (r: Result<(), Exception>)
      modifies this`deviceList, this`sensorEvents
      ensures topic == DeviceTopic ==>
                sensorEvents == old(sensorEvents)
                && (readDeviceList(message).None? ==> r.Failure? && deviceList == old(deviceList))
                && (readDeviceList(message).Some? ==> r.Success? && deviceList == Responses(devices) + readDeviceList(message).value)
      ensures topic != DeviceTopic ==>
                r.Success? && deviceList == old(deviceList)
                && sensorEvents == old(sensorEvents) +
                     if Named(deviceList, topic) && readDeviceData(message).Some?
                     then [SensorEvent(topic, readDeviceData(message).value)] else []
    {
      if topic == DeviceTopic {
        r := LoadDevices(message);
      } else {
        CheckSensorData(topic, message);
        r := Success(());
      }
    }

    /** `renameDevice`: the rename body goes to `bridge/devices/rename` only when a listed device
        has the old name; the answer is 200 either way. */
    method RenameDevice(request: RenameRequest.DeviceRenameRequest) returns (m: ResponseMessage)
      requires Valid()
      modifies mqttService`published
      ensures Valid()
      ensures m == ResponseMessage(200, None, "Device renamed successfully")
      ensures mqttService.published ==
                old(mqttService.published) +
                if request.oldName.Some? && Named(deviceList, request.oldName.value) && mqttService.connected
                then [TopicRouting.Message(mqttService.topicFilter + (DeviceTopic + "/rename"), jsonText(request.ToJson()))]
                else []
    {
      if request.oldName.Some? && FindNamed(deviceList, request.oldName.value).Some? {
        mqttService.SendCommand(DeviceTopic + "/rename", jsonText(request.ToJson()));
      }
      m := ResponseMessage(200, None, "Device renamed successfully");
    }

    /** `permitAll`: `{"value": true}` goes to `bridge/devices/bridge/request/permit_join`. */
    method PermitAll() returns (m: ResponseMessage)
      requires Valid()
      modifies mqttService`published
      ensures Valid()
      ensures m == ResponseMessage(200, None, "Permit all devices")
      ensures mqttService.published ==
                old(mqttService.published) +
                if mqttService.connected
                then [TopicRouting.Message(mqttService.topicFilter + (DeviceTopic + "/bridge/request/permit_join"),
                                           jsonText(RenameRequest.PermitJson(Some(true))))]
                else []
    {
      mqttService.SendCommand(DeviceTopic + "/bridge/request/permit_join", jsonText(RenameRequest.PermitJson(Some(true))));
      m := ResponseMessage(200, None, "Permit all devices");
    }

    /** `close`: both listener registrations go and the list is emptied. */
    method Close()
      requires Valid()
      modifies this`deviceList, mqttService`topicListeners
      ensures Valid()
      ensures mqttService.topicListeners ==
                old(mqttService.topicListeners) - {mqttService.topicFilter + DeviceTopic} - {mqttService.topicFilter + "#"}
      ensures deviceList == []
    {
      mqttService.RemoveTopicListener(DeviceTopic);
      mqttService.RemoveTopicListener("#");
      deviceList := [];
    }
  }

  /** A bridge announcement on `bridge/devices` reaches the service under both of its
      registrations: the exact key and the catch-all `#`. */
  lemma AnnouncementReachesBothRegistrations(listeners: map<string, object>, topicFilter: string, payload: string, service: object)
    requires '#' !in topicFilter
    requires topicFilter + DeviceTopic in listeners && listeners[topicFilter + DeviceTopic] == service
    requires topicFilter + "#" in listeners && listeners[topicFilter + "#"] == service
    ensures var d := TopicRouting.Route(listeners, topicFilter, topicFilter + DeviceTopic, payload);
            topicFilter + DeviceTopic in d && topicFilter + "#" in d
            && d[topicFilter + DeviceTopic].listener == service && d[topicFilter + "#"].listener == service
  {
    assert '#' !in topicFilter + DeviceTopic;
    TopicRouting.RouteSelectsByKey(listeners, topicFilter, topicFilter + DeviceTopic, payload, topicFilter + DeviceTopic);
    TopicRouting.RouteSelectsByKey(listeners, topicFilter, topicFilter + DeviceTopic, payload, topicFilter + "#");
  }
}
