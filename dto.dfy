/** The records a rule is made of and the command request a fired rule produces. The services
    read the device of a criterion and of an action through accessors the records do not declare
    (`deviceName()`, `targetDeviceName()`); the model has one field per concept, named as in the
    records. Untyped `Object` values are `Value`s; `Long` timestamps are integers. */
module Dto {
  import opened Wrappers
  import opened Values
  import opened Comparison

  /** `data[field] <operator> value` on the data of one device. */
  datatype DeviceCriteria = DeviceCriteria(deviceId: string, field: string, operator: Operator, value: Value)

  /** The criteria, the optional largest time span in milliseconds, and the devices whose data
      must all be present, in order. */
  datatype RuleCondition = RuleCondition(
    criteria: seq<DeviceCriteria>,
    maxTimeDifferenceMs: Option<int>,
    requiredDeviceSequence: seq<string>)

  /** The command to send to a device when the rule fires. */
  datatype RuleAction = RuleAction(targetDeviceId: string, commandName: string, parameters: map<string, Value>)

  /** The last data received from a device and when it arrived (milliseconds). */
  datatype DeviceDataSnapshot = DeviceDataSnapshot(deviceId: string, data: map<string, Value>, timestamp: int)

  /** A request to send a named command, with parameters, to a device known by friendly name. */
  datatype SendDeviceCommandRequest = SendDeviceCommandRequest(
    deviceName: string,
    commandName: string,
    parameters: map<string, Value>)
}
