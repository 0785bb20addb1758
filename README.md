# zigbee2mqtt-service, modelled in Dafny

A model of the core of a Zigbee home-automation gateway that talks to a zigbee2mqtt bridge over
MQTT. It covers the following parts:

- **The rule engine.** It keeps the last data snapshot of every device. When a device reports,
  it evaluates every enabled rule: all the devices a rule lists must have reported, the span
  between the first-listed and the last-listed device's timestamps must be within the rule's
  limit, and every criterion must hold on its own device's snapshot. Each rule that fires sends
  a command. Rules are enabled and disabled together behind a GPIO pin lookup.
- **The comparison operators** that criteria use, with their mix of Boolean, numeric and
  textual comparison.
- **Command dispatch.** Command templates are stored per device model and cached per model.
  Parameters are put into a JSON object template. The result is sent to
  `<friendlyName>/set` under the MQTT topic filter.
- **The device directory.** It holds the device table plus the in-memory device list that the
  bridge announces on `bridge/devices`, and it handles sensor data, renames and permit-join.
- **MQTT routing.** Listener keys are topic globs where `#` stands for any text. A delivered
  message carries its topic with every occurrence of the topic filter removed.
- **Pins**, at most two of them.
- **Configuration helpers**: key segments turned into camel-case field names, conversion of
  values by type, and splitting of dotted paths.
- **Controller path joining.**
- **Reverse-order shutdown.**

The modules follow the source files:

| module | source |
|---|---|
| `RuleEngine` | `DeviceRuleService` |
| `Comparison` | `ComparisonOperator` |
| `CommandDispatch` | `DeviceCommandService` |
| `DeviceDirectory` | `DeviceService` |
| `TopicRouting` | `MqttService` |
| `Pins` | `PinService` |
| `RenameRequest` | `DeviceRenameRequest` and `PermitRequest` |
| `Configuration` | `ConfigurationManager` |
| `Controllers` | `AbstractController` |
| `Shutdown` | `ShutdownManager` |

Supporting modules:

- `Tables`: the `findById` / `update` / `delete` behaviour of the repositories over a
  sequence of rows with a primary key.
- `Text`: the Java `String` methods the code relies on.
- `Values`: untyped payload values and their `String.valueOf` text.
- `JsonTree`: JSON trees, with Jackson's `ObjectMapper` as a pair of functions.
- `Exceptions`: exceptions as a kind, a message and a cause.
- `Dto`: the request and record types.
- `Wrappers`: `Option` and `Result`.

How the state is modelled:

- Each service is a class. Its database table is a `seq` field plus a next-id counter, and its
  caches are `map` or `Option` fields.
- MQTT publishing appends to a `published` log, and only when the client is connected.
- Inputs that come from outside are parameters:
  - the clock (`now`);
  - Jackson's parse and print functions;
  - which services throw on `close()`.
- Every operation that can throw returns a `Result`. Its error value carries the exception
  kind, the message and the cause that the code builds.

Behaviour the model follows as the code is written:

- `validateMaxDifference` counts criteria, not devices. Two criteria on one device therefore
  need a time limit, and a rule with one criterion over two devices may not have one
  (`RuleEngine.ValidationCountsCriteriaNotDevices`).
- The time span is positional: the last-listed device's timestamp minus the first-listed one's.
  - Devices listed against their arrival order give a negative span, which passes any
    non-negative limit (`RuleEngine.SpanIsPositional`).
  - An empty device sequence makes the check throw an index error. That ends the evaluation
    of the remaining rules, but commands already sent stay sent
    (`RuleEngine.FailureStopsEvaluation`).
- After the new snapshot is stored, every enabled rule is evaluated, not only the rules that
  list the reporting device.
- Rule create, update and delete never clear the cached rule list. Only expiry
  (`ExpireRuleCache`) does. `activateRules` changes the cached objects themselves and writes
  each one back.
- `updateCommand` drops the cache entry of the command's new model only. A command moved to
  another model stays in the old model's cached list
  (`CommandDispatch.UpdateAcrossModelsLeavesStaleEntry`).
- Exceptions whose construction the code cannot express are modelled this way:
  - The code calls `BaseRuntimeException(String)`, which `BaseRuntimeException` does not
    declare. The model treats it as an exception with that message and no cause.
  - `new BaseRuntimeException(e)` keeps only the cause (`Exceptions.Rethrow`).

## Model

| member | source | states |
|---|---|---|
| RuleEngine.ValidateMaxDifference | src/main/java/com/hubbox/demo/service/DeviceRuleService.java:212-220 | no error exactly when a time limit goes with other than one criterion and no limit goes with at most one; the two error messages |
| RuleEngine.ValidationCountsCriteriaNotDevices | src/main/java/com/hubbox/demo/service/DeviceRuleService.java:212-220 | two criteria on one device need a limit; one criterion over two devices may not have one |
| RuleEngine.ActiveRules | src/main/java/com/hubbox/demo/service/DeviceRuleService.java:121 | membership: a rule is active iff it is in the list and enabled |
| RuleEngine.IsExistDeviceNameInCriteria | src/main/java/com/hubbox/demo/service/DeviceRuleService.java:151-154 | definition: some rule lists the device in its sequence; `ProcessDeviceUpdate` states both of its cases |
| RuleEngine.IsRuleTriggered | src/main/java/com/hubbox/demo/service/DeviceRuleService.java:156-183 | definition; its properties are in `PresenceAndEmptySequence`, `TimeWindow`, `SingleDeviceSpanIsZero`, `SpanIsPositional` and `CriteriaOutsideSequenceIgnored` |
| RuleEngine.CriterionHolds | src/main/java/com/hubbox/demo/service/DeviceRuleService.java:188-195 | a missing field fails the criterion; a present one is decided by the operator's compare |
| RuleEngine.EvaluateDeviceCriteria | src/main/java/com/hubbox/demo/service/DeviceRuleService.java:185-196 | true iff every criterion naming the snapshot's device holds, criteria about other devices ignored |
| RuleEngine.PresenceAndEmptySequence | src/main/java/com/hubbox/demo/service/DeviceRuleService.java:160-173 | a listed device without a snapshot gives false; the check throws an index error exactly for an empty sequence |
| RuleEngine.TimeWindow | src/main/java/com/hubbox/demo/service/DeviceRuleService.java:170-182 | with all snapshots present, false iff a limit is set and the positional span exceeds it, otherwise every snapshot's criteria decide |
| RuleEngine.SingleDeviceSpanIsZero | src/main/java/com/hubbox/demo/service/DeviceRuleService.java:173-181 | a one-device rule has span 0 and is decided by its criteria alone |
| RuleEngine.SpanIsPositional | src/main/java/com/hubbox/demo/service/DeviceRuleService.java:173-175 | devices listed against arrival order give a non-positive span that passes any non-negative limit |
| RuleEngine.CriteriaOutsideSequenceIgnored | src/main/java/com/hubbox/demo/service/DeviceRuleService.java:181-187 | adding a criterion about a device outside the sequence never changes the outcome |
| RuleEngine.TwoDeviceScenario | src/main/java/com/hubbox/demo/service/DeviceRuleService.java:156-196 | D1 at 0 with temp 20, D2 at 4000 with motion true: the rule fires with a 5000 ms limit and not with 3000 ms |
| RuleEngine.FiredCommands | src/main/java/com/hubbox/demo/service/DeviceRuleService.java:135-140 | definition; its properties are in `FiredCommandsAreTriggered`, `TriggeredRulesFire` and `FailureStopsEvaluation` |
| RuleEngine.FiredCommandsAreTriggered | src/main/java/com/hubbox/demo/service/DeviceRuleService.java:135-140 | every command sent comes from a rule whose check returned true, with the rule's action mapped target-to-device |
| RuleEngine.TriggeredRulesFire | src/main/java/com/hubbox/demo/service/DeviceRuleService.java:135-140 | when no check throws, every rule that fires has its command sent |
| RuleEngine.FailureStopsEvaluation | src/main/java/com/hubbox/demo/service/DeviceRuleService.java:135-143 | once a check throws, the rules after it send nothing |
| RuleEngine.Activated | src/main/java/com/hubbox/demo/service/DeviceRuleService.java:113-114 | the same rules in the same order with only the flag changed |
| RuleEngine.WriteBackAll | src/main/java/com/hubbox/demo/service/DeviceRuleService.java:113-116 | definition; its properties are in `WriteBackAllEffect` |
| RuleEngine.WriteBackAllEffect | src/main/java/com/hubbox/demo/service/DeviceRuleService.java:113-116 | after the write-back, rows whose id is in the cached list equal the updated rule and all other rows are unchanged |
| RuleEngine.DeviceRuleService.GetAllRulesWithCache | src/main/java/com/hubbox/demo/service/DeviceRuleService.java:100-109 | answers the cached list, filling it from the table on first use |
| RuleEngine.DeviceRuleService.GetAllRules | src/main/java/com/hubbox/demo/service/DeviceRuleService.java:73-75 | responses of the cached list, one per rule, in order |
| RuleEngine.DeviceRuleService.CreateRule | src/main/java/com/hubbox/demo/service/DeviceRuleService.java:49-61 | invalid conditions are refused with nothing stored; otherwise the rule is appended disabled under a fresh id |
| RuleEngine.DeviceRuleService.GetRule | src/main/java/com/hubbox/demo/service/DeviceRuleService.java:63-71 | success iff the id is stored; the wrapped not-found error otherwise |
| RuleEngine.DeviceRuleService.UpdateRule | src/main/java/com/hubbox/demo/service/DeviceRuleService.java:77-88 | an unknown id changes nothing; otherwise the row takes the request's fields, keeps id and flag, and others stay |
| RuleEngine.DeviceRuleService.DeleteRule | src/main/java/com/hubbox/demo/service/DeviceRuleService.java:90-98 | an unknown id changes nothing; otherwise exactly that id's row is removed |
| RuleEngine.DeviceRuleService.ActivateRules | src/main/java/com/hubbox/demo/service/DeviceRuleService.java:111-117 | an unknown pin changes nothing; otherwise the cache holds the flagged rules and the table is the write-back of them |
| RuleEngine.DeviceRuleService.WriteBack | src/main/java/com/hubbox/demo/service/DeviceRuleService.java:113-116 | the per-rule update loop leaves the table equal to the write-back of the rules, with the primary key kept |
| RuleEngine.DeviceRuleService.ExecuteRuleAction | src/main/java/com/hubbox/demo/service/DeviceRuleService.java:198-206 | the action becomes a command request to the target device; failures are swallowed and nothing sent is retracted |
| RuleEngine.DeviceRuleService.FireTriggeredRules | src/main/java/com/hubbox/demo/service/DeviceRuleService.java:135-140 | the commands sent are the fired commands of the rules against the current snapshots |
| RuleEngine.DeviceRuleService.ProcessDeviceUpdate | src/main/java/com/hubbox/demo/service/DeviceRuleService.java:119-144 | no enabled rule lists the device: nothing stored or sent; otherwise only that device's snapshot changes and the fired commands of all enabled rules are sent |
| RuleEngine.DeviceRuleService.ExpireRuleCache | src/main/java/com/hubbox/demo/service/DeviceRuleService.java:100-101 | the cached list is dropped |
| Comparison.Compare | src/main/java/com/hubbox/demo/dto/ComparisonOperator.java:22-27 | a null operand makes every operator false |
| Comparison.CompareValues | src/main/java/com/hubbox/demo/dto/ComparisonOperator.java:29-48 | definition; its properties are in `EqualsMeaning`, `BooleanGreaterThan`, `GreaterThanMeaning`, `NumericOrder` and `TextOrder` |
| Comparison.Operation | src/main/java/com/hubbox/demo/dto/ComparisonOperator.java:6-14 | definition; its properties are in `NotEqualsIsNegation`, `OrderComplements`, `ContainsOperator`, `PrefixSuffixOperators` and `LessThanBothWays` |
| Comparison.EqualsMeaning | src/main/java/com/hubbox/demo/dto/ComparisonOperator.java:29-39 | two Booleans are equal by value, any other pair by String.valueOf text |
| Comparison.NotEqualsIsNegation | src/main/java/com/hubbox/demo/dto/ComparisonOperator.java:7 | NOT_EQUALS is the negation of EQUALS on non-null pairs |
| Comparison.BooleanGreaterThan | src/main/java/com/hubbox/demo/dto/ComparisonOperator.java:30-31 | on Booleans GREATER_THAN is the left operand |
| Comparison.GreaterThanMeaning | src/main/java/com/hubbox/demo/dto/ComparisonOperator.java:41-47 | numeric order when both texts parse, compareTo otherwise |
| Comparison.OrderComplements | src/main/java/com/hubbox/demo/dto/ComparisonOperator.java:9-11 | LESS_THAN is not GREATER_THAN_OR_EQUALS and LESS_THAN_OR_EQUALS is not GREATER_THAN |
| Comparison.LessThanBothWays | src/main/java/com/hubbox/demo/dto/ComparisonOperator.java:9 | LESS_THAN is not asymmetric: two different texts with the same numeric reading are each less than the other |
| Comparison.LeadingZeroLessThanBothWays | src/main/java/com/hubbox/demo/dto/ComparisonOperator.java:9 | "01" is LESS_THAN "1" and "1" is LESS_THAN "01" |
| Comparison.ContainsOperator | src/main/java/com/hubbox/demo/dto/ComparisonOperator.java:12 | CONTAINS holds iff the right text occurs in the left one at some index |
| Comparison.PrefixSuffixOperators | src/main/java/com/hubbox/demo/dto/ComparisonOperator.java:13-14 | STARTS_WITH and ENDS_WITH are an occurrence at index 0 and at the last index where the text fits |
| Comparison.NumericOrder | src/main/java/com/hubbox/demo/dto/ComparisonOperator.java:6-11 | on integers the six operators are the integer relations |
| Comparison.TextOrder | src/main/java/com/hubbox/demo/dto/ComparisonOperator.java:41-47 | on non-numeric strings the ordering operators are the compareTo order |
| Comparison.TextGreaterThanIsStrictOrder | src/main/java/com/hubbox/demo/dto/ComparisonOperator.java:46 | GREATER_THAN on non-numeric strings is irreflexive and transitive |
| Comparison.GreaterThanMixedIntransitive | src/main/java/com/hubbox/demo/dto/ComparisonOperator.java:41-47 | "10" > "9" and "9" > "10a" but not "10" > "10a" |
| Comparison.NumericBeforeTextual | src/main/java/com/hubbox/demo/dto/ComparisonOperator.java:41-46 | the numeric reading wins over compareTo |
| Comparison.BooleanQuirks | src/main/java/com/hubbox/demo/dto/ComparisonOperator.java:9-11 | true <= true is false, false < true holds, true equals "true" |
| Text.ContainsIffOccurs | src/main/java/com/hubbox/demo/dto/ComparisonOperator.java:12 | String.contains iff an occurrence at some index |
| Text.CompareTo | src/main/java/com/hubbox/demo/dto/ComparisonOperator.java:46 | definition; its properties are in `CompareToAntisymmetric`, `CompareToZeroIffEqual` and `CompareToTransitive` |
| Text.CompareToAntisymmetric | src/main/java/com/hubbox/demo/dto/ComparisonOperator.java:46 | swapping the operands negates compareTo |
| Text.CompareToZeroIffEqual | src/main/java/com/hubbox/demo/dto/ComparisonOperator.java:46 | compareTo is zero exactly on equal strings |
| Text.CompareToTransitive | src/main/java/com/hubbox/demo/dto/ComparisonOperator.java:46 | compareTo's positive results are transitive |
| Text.RemoveAll | src/main/java/com/hubbox/demo/service/MqttService.java:88 | never longer than the text; its other properties are in `RemoveAllAbsent`, `RemoveAllLeading` and `RouteStripsEveryOccurrence` |
| Text.RemoveAllAbsent | src/main/java/com/hubbox/demo/service/MqttService.java:88 | a text without the filter is left as it is |
| Text.RemoveAllLeading | src/main/java/com/hubbox/demo/service/MqttService.java:88 | removing a filter that occurs once, at the start, leaves the rest |
| Text.SplitJoin | src/main/java/com/hubbox/demo/config/ConfigurationManager.java:89 | joining the split pieces with the separator gives the text back, and no piece holds the separator |
| Text.SplitAllJoin | src/main/java/com/hubbox/demo/config/ConfigurationManager.java:89 | the pieces between separators, empty ones included, joined by the separator give the text back |
| Text.SplitAllNoSeparator | src/main/java/com/hubbox/demo/config/ConfigurationManager.java:89 | no piece holds the separator |
| Text.SplitAllLastPiece | src/main/java/com/hubbox/demo/config/ConfigurationManager.java:89 | the last piece is empty iff the text is empty or ends with the separator, which is what String.split then drops |
| Values.ParseIntToString | src/main/java/com/hubbox/demo/dto/ComparisonOperator.java:42-44 | the decimal text of an integer reads back as that integer |
| Values.ValueOf | src/main/java/com/hubbox/demo/dto/ComparisonOperator.java:34-35 | definition; its properties are in `IntToStringInjective` and `ParseIntToString` |
| Values.ParseNumber | src/main/java/com/hubbox/demo/dto/ComparisonOperator.java:41-45 | definition; its properties are in `ParseIntToString`, `NumericOrder` and `LessThanBothWays` |
| Values.IntToStringInjective | src/main/java/com/hubbox/demo/dto/ComparisonOperator.java:34-38 | two integers have the same String.valueOf text iff they are equal |
| CommandDispatch.FindCommandsByModelId | src/main/java/com/hubbox/demo/service/DeviceCommandService.java:185-192 | exactly the table's commands of the model |
| CommandDispatch.FindTemplate | src/main/java/com/hubbox/demo/service/DeviceCommandService.java:126-133 | success iff some command has the name; the not-found message with the model or "null" |
| CommandDispatch.FindTemplateIsFirst | src/main/java/com/hubbox/demo/service/DeviceCommandService.java:127-130 | the template is that of the first command with the name |
| CommandDispatch.CommandsFor | src/main/java/com/hubbox/demo/service/DeviceCommandService.java:85-98 | definition; its properties are in `CoherentCacheIsTransparent` and `DeviceCommandService.GetCommandsByModel` |
| CommandDispatch.ParameterNode | src/main/java/com/hubbox/demo/service/DeviceCommandService.java:166-173 | every Number, integral or not, becomes a double node carrying its value; a Boolean a boolean node with its value; anything else a text node with its toString text |
| CommandDispatch.Substitute | src/main/java/com/hubbox/demo/service/DeviceCommandService.java:163-176 | definition; its properties are in `SubstituteTouchesOnlyTemplateKeys` |
| CommandDispatch.SubstituteParameters | src/main/java/com/hubbox/demo/service/DeviceCommandService.java:156-182 | definition; its properties are in `DeviceCommandService.ReplaceCommandParameters` and `PrepareCommandFailures` |
| CommandDispatch.SubstituteTouchesOnlyTemplateKeys | src/main/java/com/hubbox/demo/service/DeviceCommandService.java:163-176 | only template keys are written, each with the parameter's node (a double node for every Number), and other template members stay |
| CommandDispatch.PrepareCommand | src/main/java/com/hubbox/demo/service/DeviceCommandService.java:135-154 | definition; its properties are in `PreparedCommandTarget`, `PrepareCommandFailures` and `CoherentCacheIsTransparent` |
| CommandDispatch.PreparedCommandTarget | src/main/java/com/hubbox/demo/service/DeviceCommandService.java:135-154 | a prepared command goes to the device's set topic and, without parameters, is the stored template |
| CommandDispatch.PrepareCommandFailures | src/main/java/com/hubbox/demo/service/DeviceCommandService.java:135-154 | unknown device, missing command (always for a device without a model) and an unreadable template each fail with their error |
| CommandDispatch.CoherentCacheIsTransparent | src/main/java/com/hubbox/demo/service/DeviceCommandService.java:85-98 | with a coherent cache a command is prepared as from the table alone |
| CommandDispatch.CreateKeepsCoherence | src/main/java/com/hubbox/demo/service/DeviceCommandService.java:51-64 | inserting and dropping the model's entry keeps the cache coherent |
| CommandDispatch.DeleteKeepsCoherence | src/main/java/com/hubbox/demo/service/DeviceCommandService.java:115-124 | deleting and dropping the model's entry keeps the cache coherent |
| CommandDispatch.UpdateKeepsCoherence | src/main/java/com/hubbox/demo/service/DeviceCommandService.java:100-113 | an update within the same model keeps the cache coherent |
| CommandDispatch.UpdateAcrossModelsLeavesStaleEntry | src/main/java/com/hubbox/demo/service/DeviceCommandService.java:100-113 | an update into another model leaves the old model's stale entry |
| CommandDispatch.DeviceCommandService.CreateCommand | src/main/java/com/hubbox/demo/service/DeviceCommandService.java:51-64 | row appended under a fresh id, its model's entry dropped, coherence kept |
| CommandDispatch.DeviceCommandService.UpdateCommand | src/main/java/com/hubbox/demo/service/DeviceCommandService.java:100-113 | unknown id changes nothing; otherwise the row is replaced, the new model's entry dropped, coherence kept within a model |
| CommandDispatch.DeviceCommandService.DeleteCommand | src/main/java/com/hubbox/demo/service/DeviceCommandService.java:115-124 | unknown id changes nothing; otherwise the row and its model's entry go and coherence is kept |
| CommandDispatch.DeviceCommandService.GetCommandsByModel | src/main/java/com/hubbox/demo/service/DeviceCommandService.java:85-98 | the cached list or the table's, which is then cached; null model gives none |
| CommandDispatch.DeviceCommandService.GetCommandTemplate | src/main/java/com/hubbox/demo/service/DeviceCommandService.java:126-133 | the first template with the name among the model's commands |
| CommandDispatch.DeviceCommandService.ReplaceCommandParameters | src/main/java/com/hubbox/demo/service/DeviceCommandService.java:156-182 | the loop computes the substitution, numbers put in as double nodes: no parameters gives the template, parse, class-cast and null errors as thrown |
| CommandDispatch.DeviceCommandService.ExecuteCommand | src/main/java/com/hubbox/demo/service/DeviceCommandService.java:135-154 | the prepared command is published under the filter when connected; any failure wraps the cause and sends nothing |
| DeviceDirectory.FindNamed | src/main/java/com/hubbox/demo/service/DeviceService.java:103-108 | found iff some listed device has the name, and it is the first such |
| DeviceDirectory.FindNamedIsFirst | src/main/java/com/hubbox/demo/service/DeviceService.java:104-106 | the first device with the name is the one found |
| DeviceDirectory.RemoveFirstNamed | src/main/java/com/hubbox/demo/service/DeviceService.java:178-183 | definition; its properties are in `RemoveFirstNamedAt` and `RemoveFirstNamedAbsent` |
| DeviceDirectory.Responses | src/main/java/com/hubbox/demo/service/DeviceService.java:142 | one response per table row, in table order, each the row's mapping |
| DeviceDirectory.RemoveFirstNamedAt | src/main/java/com/hubbox/demo/service/DeviceService.java:178-183 | removing by name deletes exactly the first entry with the name |
| DeviceDirectory.RemoveFirstNamedAbsent | src/main/java/com/hubbox/demo/service/DeviceService.java:178-183 | an absent name leaves the list alone |
| DeviceDirectory.DeviceService.constructor | src/main/java/com/hubbox/demo/service/DeviceService.java:39-53 | starts empty and registers its listener for the device topic and for everything |
| DeviceDirectory.DeviceService.GetDeviceById | src/main/java/com/hubbox/demo/service/DeviceService.java:103-108 | success iff a listed device has the name; otherwise the not-found error with the name |
| DeviceDirectory.DeviceService.RemoveDeviceFromList | src/main/java/com/hubbox/demo/service/DeviceService.java:178-183 | the list loses its first entry with the name |
| DeviceDirectory.DeviceService.CreateDevice | src/main/java/com/hubbox/demo/service/DeviceService.java:55-69 | a null flag fails with nothing stored; otherwise the row is stored under a fresh id |
| DeviceDirectory.DeviceService.UpdateDevice | src/main/java/com/hubbox/demo/service/DeviceService.java:71-86 | unknown id fails with nothing changed; otherwise the old entry leaves the list and the row is replaced and listed again |
| DeviceDirectory.DeviceService.DeleteDevice | src/main/java/com/hubbox/demo/service/DeviceService.java:88-97 | unknown id fails; otherwise the row and its list entry go |
| DeviceDirectory.DeviceService.LoadDevices | src/main/java/com/hubbox/demo/service/DeviceService.java:135-151 | an unreadable announcement fails leaving the list; otherwise the list is the table's responses followed by the announced devices |
| DeviceDirectory.DeviceService.CheckSensorData | src/main/java/com/hubbox/demo/service/DeviceService.java:153-166 | a parsable payload on a listed device's topic is recorded as one sensor event; anything else records nothing |
| DeviceDirectory.DeviceService.OnMessage | src/main/java/com/hubbox/demo/service/DeviceService.java:125-133 | the device topic loads the list, any other topic is sensor data |
| DeviceDirectory.DeviceService.RenameDevice | src/main/java/com/hubbox/demo/service/DeviceService.java:110-118 | publishes the rename body only for a listed old name and always answers 200 |
| DeviceDirectory.DeviceService.PermitAll | src/main/java/com/hubbox/demo/service/DeviceService.java:120-123 | publishes the permit-join body and answers 200 |
| DeviceDirectory.DeviceService.Close | src/main/java/com/hubbox/demo/service/DeviceService.java:186-194 | both listener registrations go and the list is cleared |
| DeviceDirectory.AnnouncementReachesBothRegistrations | src/main/java/com/hubbox/demo/service/DeviceService.java:168-171 | an announcement is delivered to both registrations of the service |
| TopicRouting.LiteralKeyMatchesOnlyItself | src/main/java/com/hubbox/demo/service/MqttService.java:87 | a key without '#' matches only itself |
| TopicRouting.HashMatchesEverything | src/main/java/com/hubbox/demo/service/MqttService.java:87 | "#" matches every topic |
| TopicRouting.TrailingHashMatchesPrefix | src/main/java/com/hubbox/demo/service/MqttService.java:87 | prefix + "#" matches exactly the topics starting with the prefix |
| TopicRouting.Matches | src/main/java/com/hubbox/demo/service/MqttService.java:87 | definition; its properties are in `LiteralKeyMatchesOnlyItself`, `HashMatchesEverything`, `TrailingHashMatchesPrefix` and `TrailingHashSelectsPrefixes` |
| TopicRouting.TrailingHashSelectsPrefixes | src/main/java/com/hubbox/demo/service/MqttService.java:87 | prefix + "#" selects exactly the topics with that prefix, for all topics at once |
| TopicRouting.Route | src/main/java/com/hubbox/demo/service/MqttService.java:80-92 | only registered keys are delivered to, each to its listener with the payload |
| TopicRouting.RouteSelectsByKey | src/main/java/com/hubbox/demo/service/MqttService.java:86-90 | a literal key is delivered to iff it equals the topic, a prefix key iff the topic starts with it |
| TopicRouting.RouteStaysInSubscription | src/main/java/com/hubbox/demo/service/MqttService.java:55 | any delivery with a '#'-free filter is for a topic the subscription matches |
| TopicRouting.RouteStripsLeadingFilter | src/main/java/com/hubbox/demo/service/MqttService.java:88 | a topic that is the filter plus a filter-free rest is delivered as the rest |
| TopicRouting.RouteStripsEveryOccurrence | src/main/java/com/hubbox/demo/service/MqttService.java:88 | every occurrence of the filter is removed, not just the leading one |
| TopicRouting.MqttService.AddTopicListener | src/main/java/com/hubbox/demo/service/MqttService.java:70-73 | the listener is stored under filter + topic |
| TopicRouting.MqttService.RemoveTopicListener | src/main/java/com/hubbox/demo/service/MqttService.java:75-78 | the key filter + topic is removed |
| TopicRouting.MqttService.SubscriptionFilter | src/main/java/com/hubbox/demo/service/MqttService.java:55 | with a '#'-free filter the subscription matches exactly the topics under it |
| TopicRouting.MqttService.HandleMessage | src/main/java/com/hubbox/demo/service/MqttService.java:80-92 | non-empty deliveries only for topics inside the subscription |
| TopicRouting.MqttService.SendCommand | src/main/java/com/hubbox/demo/service/MqttService.java:95-123 | publishes filter + topic when connected, nothing otherwise |
| Pins.FindPinEntity | src/main/java/com/hubbox/demo/service/PinService.java:82-84 | success iff a pin has the number; otherwise "Pin not found" |
| Pins.FindPinEntityIsFirst | src/main/java/com/hubbox/demo/service/PinService.java:82-84 | the first pin with the number is the one found |
| Pins.PinService.CreatePin | src/main/java/com/hubbox/demo/service/PinService.java:30-44 | with two pins stored creation fails and nothing changes; otherwise a fresh id is appended and never more than two pins exist |
| Pins.PinService.GetPin | src/main/java/com/hubbox/demo/service/PinService.java:46-54 | success iff some pin has the number; the wrapped not-found error otherwise |
| Pins.PinService.UpdatePin | src/main/java/com/hubbox/demo/service/PinService.java:56-66 | unknown number changes nothing; otherwise the pin's number changes under its id |
| Pins.PinService.DeletePin | src/main/java/com/hubbox/demo/service/PinService.java:68-76 | unknown number changes nothing; otherwise that pin's row goes |
| RenameRequest.DeviceRenameRequest.ToJson | src/main/java/com/hubbox/demo/dto/request/DeviceRenameRequest.java:14-22 | a data object with from, to and the rename flag, from which the request reads back |
| RenameRequest.RenameBodyDeterminesRequest | src/main/java/com/hubbox/demo/dto/request/DeviceRenameRequest.java:14-22 | two requests give the same body iff names agree and flags agree as true-or-not |
| RenameRequest.PermitJson | src/main/java/com/hubbox/demo/dto/request/PermitRequest.java:9-13 | an object with the single member value holding the flag |
| Tables.FindById | src/main/java/com/hubbox/demo/repository/BaseCrudRepository.java:55-71 | found iff the id is stored, with that id |
| Tables.ReplaceById | src/main/java/com/hubbox/demo/repository/BaseCrudRepository.java:90-100 | same length; rows with the id become the new row and others stay |
| Tables.RemoveById | src/main/java/com/hubbox/demo/repository/BaseCrudRepository.java:103-112 | exactly the rows without the id remain |
| Tables.ReplaceThenFind | src/main/java/com/hubbox/demo/repository/BaseCrudRepository.java:90-100 | an update keeps the ids, a later find sees the new row, other ids unaffected |
| Tables.RemoveThenFind | src/main/java/com/hubbox/demo/repository/BaseCrudRepository.java:103-112 | a delete removes exactly the id, keeps the key distinct and leaves other finds alone |
| Configuration.ToCamelCase | src/main/java/com/hubbox/demo/config/ConfigurationManager.java:154-168 | the character loop computes the separator-dropping, upper-after-run conversion |
| Configuration.CamelCaseShape | src/main/java/com/hubbox/demo/config/ConfigurationManager.java:158-164 | no '-' or '_' in the output, whose length is the input's minus its separators |
| Configuration.CamelCaseUppercasesAfterRun | src/main/java/com/hubbox/demo/config/ConfigurationManager.java:159-162 | the character after a run of separators is uppercased |
| Configuration.CamelCaseCopiesOthers | src/main/java/com/hubbox/demo/config/ConfigurationManager.java:162-163 | a character not after a separator is copied unchanged |
| Configuration.CamelCaseIdempotent | src/main/java/com/hubbox/demo/config/ConfigurationManager.java:154-167 | converting twice is converting once |
| Configuration.ParseBounded | src/main/java/com/hubbox/demo/config/ConfigurationManager.java:135-140 | success iff a signed decimal within the type's bounds, else NumberFormatException |
| Configuration.ConvertValue | src/main/java/com/hubbox/demo/config/ConfigurationManager.java:131-152 | text for String, bounded parse for int and long, equalsIgnoreCase for boolean, and "Unsupported type" otherwise |
| Configuration.IntegerRoundTrip | src/main/java/com/hubbox/demo/config/ConfigurationManager.java:135-140 | the decimal text of an in-range value converts back to it; 2^31 fails for int |
| Configuration.BooleanConversion | src/main/java/com/hubbox/demo/config/ConfigurationManager.java:141-143 | "true" in any case gives true, other text false, never a failure |
| Configuration.PlanProperty | src/main/java/com/hubbox/demo/config/ConfigurationManager.java:89-104 | fails iff the split is empty; otherwise camel-cased nested names for all but the last segment and the last one |
| Configuration.PlanRebuildsPath | src/main/java/com/hubbox/demo/config/ConfigurationManager.java:89-104 | for a well-formed key the walked names joined by '.' give the key back |
| Controllers.AbstractController.BuildPath | src/main/java/com/hubbox/demo/controller/AbstractController.java:14-19 | the resource path followed by each part behind a slash; the resource path alone without parts |
| Controllers.JoinIsSlashed | src/main/java/com/hubbox/demo/controller/AbstractController.java:15-18 | joining with '/' is the resource path plus slash-prefixed parts |
| Controllers.SlashedAppend | src/main/java/com/hubbox/demo/controller/AbstractController.java:16-17 | a further part lands at the end, so order is kept |
| Shutdown.ShutdownLog | src/main/java/com/hubbox/demo/config/ShutdownManager.java:25-36 | one entry per service, last registered first, failing exactly for the services that throw |
| Shutdown.ShutdownClosesEachOnce | src/main/java/com/hubbox/demo/config/ShutdownManager.java:28-34 | the closed services are the registrations reversed, each exactly once |
| Shutdown.ShutdownManager.RegisterService | src/main/java/com/hubbox/demo/config/ShutdownManager.java:13-15 | the service is appended at the end |
| Shutdown.ShutdownManager.ShutdownAll | src/main/java/com/hubbox/demo/config/ShutdownManager.java:25-36 | the descending loop produces the shutdown log and leaves the registrations unchanged |

## Left out

- MQTT client I/O, asynchronous connection and acknowledgement handling: publishing is a log appended when the client is connected, and the connection state is a constant.
- SQL failures (`SQLException`) of every repository call: the tables are sequences and never fail.
- The thread pool of `SensorEventManager`: a sensor event is recorded in `sensorEvents` instead of being handed to listeners asynchronously.
- Regular expressions beyond `#`: listener keys are treated as text with `#` as a wildcard, and other regex metacharacters in keys are matched literally.
- Floating point: `Double.parseDouble` is read as an optional sign and decimal digits (integral values only), so the ordering operators compare a non-integral number (`Values.Dec`) or a decimal text by `compareTo`, where Java compares them as doubles. Double or float configuration values keep their text.
- ParameterNode: a number put into a template is a double node carrying the number's decimal text. Its rounding to the nearest double is not modelled, so a `long` beyond 2^53 keeps its exact value, and the text Jackson prints for a double node (`128.0` for 128) is part of the mapper's printing function.
- Listener exceptions: a listener that throws ends the `forEach` in `handleMessage` (src/main/java/com/hubbox/demo/service/MqttService.java:86-91), so later keys get nothing; `TopicRouting.Route` returns every delivery. Listener calls are not modelled.
- Matches: regex `.*` does not match line terminators, but `#` here matches any character, so a topic holding a line break matches keys the code would reject.
- SubscriptionFilter: the broker's `topicFilter + "#"` also matches the parent topic (the filter without its trailing `/`), which `TopicRouting.MqttService.SubscriptionFilter` does not.
- `DeviceCommandRepository` declares only `create` and `findByModelId`; the `findById`, `update` and `delete` that `DeviceCommandService` calls (src/main/java/com/hubbox/demo/service/DeviceCommandService.java:105, 118, 195) are not declared there, and `Tables` gives them `BaseCrudRepository`'s meaning.
- Record accessors: `evaluateDeviceCriteria` calls `deviceName()` on `DeviceCriteria` and `DeviceDataSnapshot` (src/main/java/com/hubbox/demo/service/DeviceRuleService.java:187), which those records do not declare; the model reads their `deviceId` fields. The rule mapper fills a command request's `deviceName` from the action's `targetDeviceId` (src/main/java/com/hubbox/demo/mapper/DeviceRuleMapper.java:24).
- Unicode: a Dafny `char` is a Unicode scalar value, not a UTF-16 code unit as in Java. `Text.CompareTo` therefore orders characters outside the Basic Multilingual Plane by code point, where Java compares their surrogate units (Java puts "\uFFFF" after "😀", the model before it), and such a character counts as one in lengths and indices, where Java counts two. Case mapping beyond ASCII (`toUpperCase`, `equalsIgnoreCase`) and `Integer.parseInt` digits beyond ASCII are left out too.
- Timestamp overflow: the positional span is computed on unbounded integers, not Java `long`.
- Null names and fields other than the ones the model keeps optional (device `disabled`, model id, rename fields).
- The `enabled` flag of rules is kept in the rule table here; the rule repository does not persist it, so its value after a cache reload is not modelled.
- Caffeine's expiry timing: `ExpireRuleCache` stands for an expiry at some moment.
- Reflection in `setNestedProperty`: finding and creating nested objects and setting the field are not modelled, only the path planning; property-file loading is left out.
- `getCommand`, `getAllCommands`, `getAllDevices` and `getAllPins`: plain reads of a table, not modelled.
- RuleEngine.DeviceRuleService.ProcessDeviceUpdate: does not restate what each executed command publishes, only which command requests are executed; exceptions from the rule cache loader are not modelled.
- RuleEngine.DeviceRuleService.ExecuteRuleAction: states only that published messages are kept, not which message is added, so that callers stay cheap to verify.
- Configuration.ConvertValue: double and float conversions always succeed and keep the text.
