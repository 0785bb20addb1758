/** The rule engine (`DeviceRuleService`): rules stored in `device_rules` and cached as one list,
    the last data snapshot of every device, the evaluation of all enabled rules when a device
    reports data, and the pin-gated sweep that enables or disables every cached rule. */
module RuleEngine {
  import opened Wrappers
  import opened Exceptions
  import opened Values
  import opened Comparison
  import opened Dto
  import Tables
  import Pins
  import CommandDispatch

  /** A row of `device_rules` together with the `enabled` flag the service reads and writes. */
  datatype DeviceRule = DeviceRule(
    id: int,
    name: string,
    description: string,
    enabled: bool,
    condition: RuleCondition,
    action: RuleAction)

  function RuleId(r: DeviceRule): int { r.id }

  /** The fields of `DeviceRuleCreateRequest` and of `DeviceRuleUpdateRequest`. */
  datatype RuleRequest = RuleRequest(name: string, description: string, condition: RuleCondition, action: RuleAction)

  datatype DeviceRuleResponse = DeviceRuleResponse(
    id: int,
    name: string,
    description: string,
    condition: RuleCondition,
    action: RuleAction)

  datatype ActivateRequest = ActivateRequest(pinNumber: string, activate: bool)

  /** `mapper.toResponse`. */
  function ToResponse(r: DeviceRule): DeviceRuleResponse
  {
    DeviceRuleResponse(r.id, r.name, r.description, r.condition, r.action)
  }

  /** `validateMaxDifference`: a time limit needs more than one criterion and more than one
      criterion needs a time limit. It counts criteria, not devices. */
  function ValidateMaxDifference(condition: RuleCondition): (r: Option<Exception>)
    ensures r.None? <==>
              (condition.maxTimeDifferenceMs.Some? ==> |condition.criteria| != 1)
              && (condition.maxTimeDifferenceMs.None? ==> |condition.criteria| <= 1)
    ensures condition.maxTimeDifferenceMs.Some? && |condition.criteria| == 1 ==>
              r == Some(Raise(BaseRuntime, "Time difference can only be used with multiple criteria"))
    ensures condition.maxTimeDifferenceMs.None? && |condition.criteria| > 1 ==>
              r == Some(Raise(BaseRuntime, "Multiple criteria require a time difference"))
    ensures r.Some? ==> r.value.kind == BaseRuntime && r.value.cause.None?
  {
    if condition.maxTimeDifferenceMs.Some? && |condition.criteria| == 1 then
      Some(Raise(BaseRuntime, "Time difference can only be used with multiple criteria"))
    else if condition.maxTimeDifferenceMs.None? && |condition.criteria| > 1 then
      Some(Raise(BaseRuntime, "Multiple criteria require a time difference"))
    else None
  }

  /** Because criteria are counted, two criteria on one device need a time limit, while a
      two-device sequence with a single criterion may not have one. */
  lemma ValidationCountsCriteriaNotDevices(c1: DeviceCriteria, c2: DeviceCriteria, d1: string, d2: string, max: int)
    ensures ValidateMaxDifference(RuleCondition([c1, c2], None, [d1]))
              == Some(Raise(BaseRuntime, "Multiple criteria require a time difference"))
    ensures ValidateMaxDifference(RuleCondition([c1, c2], Some(max), [d1])).None?
    ensures ValidateMaxDifference(RuleCondition([c1], Some(max), [d1, d2]))
              == Some(Raise(BaseRuntime, "Time difference can only be used with multiple criteria"))
  {
  }

  /** The enabled rules, in list order. */
  function ActiveRules(rules: seq<DeviceRule>): (r: seq<DeviceRule>)
    ensures forall x :: x in r <==> x in rules && x.enabled
  {
    if rules == [] then []
    else if rules[0].enabled then [rules[0]] + ActiveRules(rules[1..])
    else ActiveRules(rules[1..])
  }

  /** `isExistDeviceNameInCriteria`: some rule requires data from the device. */
  predicate IsExistDeviceNameInCriteria(rules: seq<DeviceRule>, deviceName: string)
  {
    exists i :: 0 <= i < |rules| && deviceName in rules[i].condition.requiredDeviceSequence
  }

  /** One criterion on a snapshot: a missing or null field fails it, otherwise the operator
      decides. */
  function CriterionHolds(snapshot: DeviceDataSnapshot, criterion: DeviceCriteria): (r: bool)
    ensures criterion.field !in snapshot.data ==> !r
    ensures criterion.field in snapshot.data ==>
              (r <==> Compare(criterion.operator, snapshot.data[criterion.field], criterion.value))
  {
    criterion.field in snapshot.data && !snapshot.data[criterion.field].Null?
    && Compare(criterion.operator, snapshot.data[criterion.field], criterion.value)
  }

  /** `evaluateDeviceCriteria`: every criterion about the snapshot's own device holds; criteria
      about other devices are not looked at. */
  function EvaluateDeviceCriteria(snapshot: DeviceDataSnapshot, criteria: seq<DeviceCriteria>): (r: bool)
    ensures r <==> forall i :: 0 <= i < |criteria| && criteria[i].deviceId == snapshot.deviceId ==>
                               CriterionHolds(snapshot, criteria[i])
  {
    if criteria == [] then true
    else
      assert forall i :: 1 <= i < |criteria| ==> criteria[i] == criteria[1..][i - 1];
      (criteria[0].deviceId != snapshot.deviceId || CriterionHolds(snapshot, criteria[0]))
      && EvaluateDeviceCriteria(snapshot, criteria[1..])
  }

  predicate AllPresent(sequence: seq<string>, last: map<string, DeviceDataSnapshot>)
  {
    forall i :: 0 <= i < |sequence| ==> sequence[i] in last
  }

  /** The positional time span: the last-listed device's timestamp minus the first-listed one's. */
  function TimeSpan(sequence: seq<string>, last: map<string, DeviceDataSnapshot>): int
    requires |sequence| > 0 && AllPresent(sequence, last)
  {
    last[sequence[|sequence| - 1]].timestamp - last[sequence[0]].timestamp
  }

  /** `isRuleTriggered`: every listed device has a snapshot, the positional span is within the
      limit if there is one, and every snapshot satisfies its device's criteria. An empty
      sequence passes the presence check and then fails on `get(-1)`. */
  function IsRuleTriggered(rule: DeviceRule, last: map<string, DeviceDataSnapshot>): Result<bool, Exception>
  {
    var condition := rule.condition;
    var sequence := condition.requiredDeviceSequence;
    if !AllPresent(sequence, last) then Success(false)
    else if |sequence| == 0 then Failure(Exception(IndexOutOfBounds, None, None))
    else if condition.maxTimeDifferenceMs.Some? && TimeSpan(sequence, last) > condition.maxTimeDifferenceMs.value then
      Success(false)
    else Success(forall i :: 0 <= i < |sequence| ==> EvaluateDeviceCriteria(last[sequence[i]], condition.criteria))
  }

  /** A listed device without a snapshot keeps the rule from firing; an empty sequence is the
      only way the check throws. */
  lemma PresenceAndEmptySequence(rule: DeviceRule, last: map<string, DeviceDataSnapshot>)
    ensures (exists i :: 0 <= i < |rule.condition.requiredDeviceSequence| && rule.condition.requiredDeviceSequence[i] !in last)
              ==> IsRuleTriggered(rule, last) == Success(false)
    ensures IsRuleTriggered(rule, last).Failure? <==> rule.condition.requiredDeviceSequence == []
    ensures rule.condition.requiredDeviceSequence == [] ==>
              IsRuleTriggered(rule, last) == Failure(Exception(IndexOutOfBounds, None, None))
  {
  }

  /** With all snapshots present the rule fails the time check exactly when a limit is set and the
      positional span is strictly greater; otherwise the criteria decide. */
  lemma TimeWindow(rule: DeviceRule, last: map<string, DeviceDataSnapshot>)
    requires |rule.condition.requiredDeviceSequence| > 0 && AllPresent(rule.condition.requiredDeviceSequence, last)
    ensures var c := rule.condition;
            IsRuleTriggered(rule, last) ==
              if c.maxTimeDifferenceMs.Some? && TimeSpan(c.requiredDeviceSequence, last) > c.maxTimeDifferenceMs.value
              then Success(false)
              else Success(forall i :: 0 <= i < |c.requiredDeviceSequence| ==>
                             EvaluateDeviceCriteria(last[c.requiredDeviceSequence[i]], c.criteria))
  {
  }

  /** A single-device sequence has span zero, so any non-negative limit passes and its criteria
      alone decide. */
  lemma SingleDeviceSpanIsZero(rule: DeviceRule, last: map<string, DeviceDataSnapshot>, d: string)
    requires rule.condition.requiredDeviceSequence == [d] && d in last
    requires rule.condition.maxTimeDifferenceMs.None? || rule.condition.maxTimeDifferenceMs.value >= 0
    ensures TimeSpan([d], last) == 0
    ensures IsRuleTriggered(rule, last) == Success(EvaluateDeviceCriteria(last[d], rule.condition.criteria))
  {
    assert forall i :: 0 <= i < 1 ==> [d][i] == d;
  }

  /** The span is positional, not the spread of the timestamps: devices listed against their
      arrival order give a negative span, which satisfies any non-negative limit however far
      apart the snapshots are. */
  lemma SpanIsPositional(rule: DeviceRule, last: map<string, DeviceDataSnapshot>, first: string, second: string)
    requires rule.condition.requiredDeviceSequence == [first, second] && first in last && second in last
    requires last[first].timestamp >= last[second].timestamp
    requires rule.condition.maxTimeDifferenceMs.Some? && rule.condition.maxTimeDifferenceMs.value >= 0
    ensures TimeSpan([first, second], last) == last[second].timestamp - last[first].timestamp <= 0
    ensures IsRuleTriggered(rule, last) ==
              Success(EvaluateDeviceCriteria(last[first], rule.condition.criteria)
                      && EvaluateDeviceCriteria(last[second], rule.condition.criteria))
  {
    var sequence := [first, second];
    assert forall i :: 0 <= i < 2 ==> sequence[i] == first || sequence[i] == second;
    assert sequence[0] == first && sequence[1] == second;
  }

  /** Snapshots stored under their own device's name. */
  predicate KeyedByDevice(last: map<string, DeviceDataSnapshot>)
  {
    forall k :: k in last ==> last[k].deviceId == k
  }

  /** A criterion about a device outside the sequence never changes whether the rule fires. */
  lemma CriteriaOutsideSequenceIgnored(rule: DeviceRule, last: map<string, DeviceDataSnapshot>, extra: DeviceCriteria)
    requires KeyedByDevice(last)
    requires extra.deviceId !in rule.condition.requiredDeviceSequence
    ensures IsRuleTriggered(rule.(condition := rule.condition.(criteria := rule.condition.criteria + [extra])), last)
            == IsRuleTriggered(rule, last)
  {
    var c := rule.condition;
    var more := c.criteria + [extra];
    var sequence := c.requiredDeviceSequence;
    if AllPresent(sequence, last) {
      forall i | 0 <= i < |sequence|
        ensures EvaluateDeviceCriteria(last[sequence[i]], more) == EvaluateDeviceCriteria(last[sequence[i]], c.criteria)
      {
        var s := last[sequence[i]];
        assert s.deviceId == sequence[i];
        assert forall j :: 0 <= j < |c.criteria| ==> more[j] == c.criteria[j];
        assert more[|c.criteria|] == extra;
      }
    }
  }

  /** Two devices: D1 seen at 0 with `temp` 20, D2 at 4000 with `motion` true; the rule
      [D1, D2] with `D1.temp > 15` and `D2.motion == true` fires under a 5000 ms limit and not
      under a 3000 ms one. */
  lemma TwoDeviceScenario()
    ensures var criteria := [DeviceCriteria("D1", "temp", GreaterThan, Num(15)),
                             DeviceCriteria("D2", "motion", Equals, Bool(true))];
            var last := map["D1" := DeviceDataSnapshot("D1", map["temp" := Num(20)], 0),
                             "D2" := DeviceDataSnapshot("D2", map["motion" := Bool(true)], 4000)];
            var action := RuleAction("Lamp", "on", map[]);
            IsRuleTriggered(DeviceRule(1, "r", "", true, RuleCondition(criteria, Some(5000), ["D1", "D2"]), action), last)
              == Success(true)
            && IsRuleTriggered(DeviceRule(1, "r", "", true, RuleCondition(criteria, Some(3000), ["D1", "D2"]), action), last)
              == Success(false)
  {
    var criteria := [DeviceCriteria("D1", "temp", GreaterThan, Num(15)),
                     DeviceCriteria("D2", "motion", Equals, Bool(true))];
    var s1 := DeviceDataSnapshot("D1", map["temp" := Num(20)], 0);
    var s2 := DeviceDataSnapshot("D2", map["motion" := Bool(true)], 4000);
    var last := map["D1" := s1, "D2" := s2];
    var sequence := ["D1", "D2"];
    assert sequence[0] == "D1" && sequence[1] == "D2";
    assert AllPresent(sequence, last);
    assert TimeSpan(sequence, last) == 4000;
    NumericOrder(20, 15);
    assert CriterionHolds(s1, criteria[0]);
    assert CriterionHolds(s2, criteria[1]);
    assert "D1" != "D2" by {
      assert "D1"[1] != "D2"[1];
    }
    assert EvaluateDeviceCriteria(s1, criteria);
    assert EvaluateDeviceCriteria(s2, criteria);
    assert forall i :: 0 <= i < |sequence| ==> EvaluateDeviceCriteria(last[sequence[i]], criteria);
  }

  /** `mapper.toDeviceCommandRequest`: the command goes to the action's target device. */
  function ToCommandRequest(action: RuleAction): SendDeviceCommandRequest
  {
    SendDeviceCommandRequest(action.targetDeviceId, action.commandName, action.parameters)
  }

  /** The commands the `filter(isRuleTriggered).forEach(executeRuleAction)` pipeline hands to the
      command service: one per triggered rule, in rule order, until a check throws and the rest
      of the rules are never looked at. */
  function FiredCommands(active: seq<DeviceRule>, last: map<string, DeviceDataSnapshot>): seq<SendDeviceCommandRequest>
  {
    if active == [] then []
    else
      match IsRuleTriggered(active[0], last)
      case Failure(_) => []
      case Success(fires) =>
        (if fires then [ToCommandRequest(active[0].action)] else []) + FiredCommands(active[1..], last)
  }

  /** One rule's worth of `FiredCommands` from position `i` on. */
  lemma FiredCommandsStep(active: seq<DeviceRule>, last: map<string, DeviceDataSnapshot>, i: int)
    requires 0 <= i < |active|
    ensures IsRuleTriggered(active[i], last).Failure? ==> FiredCommands(active[i..], last) == []
    ensures IsRuleTriggered(active[i], last) == Success(false) ==>
              FiredCommands(active[i..], last) == FiredCommands(active[i + 1..], last)
    ensures IsRuleTriggered(active[i], last) == Success(true) ==>
              FiredCommands(active[i..], last) == [ToCommandRequest(active[i].action)] + FiredCommands(active[i + 1..], last)
  {
    assert active[i..][0] == active[i] && active[i..][1..] == active[i + 1..];
  }

  /** Every command sent comes from a rule that was checked and fired. */
  lemma {:induction false} FiredCommandsAreTriggered(active: seq<DeviceRule>, last: map<string, DeviceDataSnapshot>)
    ensures forall q :: q in FiredCommands(active, last) ==>
              exists i :: 0 <= i < |active| && IsRuleTriggered(active[i], last) == Success(true)
                          && q == ToCommandRequest(active[i].action)
  {
    if active != [] {
      FiredCommandsAreTriggered(active[1..], last);
      forall q | q in FiredCommands(active, last)
        ensures exists i :: 0 <= i < |active| && IsRuleTriggered(active[i], last) == Success(true)
                            && q == ToCommandRequest(active[i].action)
      {
        if q !in FiredCommands(active[1..], last) {
          assert IsRuleTriggered(active[0], last) == Success(true) && q == ToCommandRequest(active[0].action);
        } else {
          var i :| 0 <= i < |active[1..]| && IsRuleTriggered(active[1..][i], last) == Success(true)
                   && q == ToCommandRequest(active[1..][i].action);
          assert active[1..][i] == active[i + 1];
        }
      }
    }
  }

  /** When no check throws, every rule that fires sends its command. */
  lemma {:induction false} TriggeredRulesFire(active: seq<DeviceRule>, last: map<string, DeviceDataSnapshot>, k: int)
    requires forall i :: 0 <= i < |active| ==> IsRuleTriggered(active[i], last).Success?
    requires 0 <= k < |active| && IsRuleTriggered(active[k], last) == Success(true)
    ensures ToCommandRequest(active[k].action) in FiredCommands(active, last)
  {
    if k > 0 {
      assert forall i :: 0 <= i < |active[1..]| ==> active[1..][i] == active[i + 1];
      TriggeredRulesFire(active[1..], last, k - 1);
    }
  }

  /** A rule whose check throws stops the evaluation: the rules listed after it send nothing,
      whatever their conditions. */
  lemma {:induction false} FailureStopsEvaluation(before: seq<DeviceRule>, bad: DeviceRule, after: seq<DeviceRule>, last: map<string, DeviceDataSnapshot>)
    requires IsRuleTriggered(bad, last).Failure?
    ensures FiredCommands(before + [bad] + after, last) == FiredCommands(before, last)
  {
    if before == [] {
      assert before + [bad] + after == [bad] + after;
    } else {
      assert (before + [bad] + after)[1..] == before[1..] + [bad] + after;
      FailureStopsEvaluation(before[1..], bad, after, last);
    }
  }

  /** The cached list written back row by row, as far as `updates` goes: each row of the table
      whose id an update carries becomes that update. */
  function WriteBackAll(rows: seq<DeviceRule>, updates: seq<DeviceRule>): seq<DeviceRule>
  {
    if updates == [] then rows
    else
      var u := updates[|updates| - 1];
      Tables.ReplaceById(WriteBackAll(rows, updates[..|updates| - 1]), RuleId, u.id, u)
  }

  /** The cached rules with their flag set. */
  function Activated(rules: seq<DeviceRule>, activate: bool): (r: seq<DeviceRule>)
    ensures |r| == |rules|
    ensures forall i :: 0 <= i < |rules| ==> r[i] == rules[i].(enabled := activate)
  {
    seq(|rules|, i requires 0 <= i < |rules| => rules[i].(enabled := activate))
  }

  /** After the sweep, a table row whose id is among distinct-id updates is exactly the update
      with that id; every other row, such as one created after the cache was filled, is left as
      it was. The table keeps its length and order. */
  lemma {:induction false} WriteBackAllEffect(rows: seq<DeviceRule>, updates: seq<DeviceRule>)
    requires Tables.DistinctIds(updates, RuleId)
    ensures |WriteBackAll(rows, updates)| == |rows|
    ensures forall i :: 0 <= i < |rows| ==>
              WriteBackAll(rows, updates)[i] ==
                if rows[i].id in Tables.Ids(updates, RuleId)
                then Tables.FindById(updates, RuleId, rows[i].id).value
                else rows[i]
  {
    if updates != [] {
      var prefix := updates[..|updates| - 1];
      var u := updates[|updates| - 1];
      assert Tables.DistinctIds(prefix, RuleId);
      WriteBackAllEffect(rows, prefix);
      assert updates == prefix + [u];
      forall i | 0 <= i < |rows|
        ensures WriteBackAll(rows, updates)[i] ==
                  if rows[i].id in Tables.Ids(updates, RuleId)
                  then Tables.FindById(updates, RuleId, rows[i].id).value
                  else rows[i]
      {
        FindByIdAppend(prefix, u, rows[i].id);
      }
    }
  }

  /** Looking up an id in a list with one more, distinct-id row at the end. */
  lemma {:induction false} FindByIdAppend(prefix: seq<DeviceRule>, u: DeviceRule, id: int)
    requires Tables.DistinctIds(prefix + [u], RuleId)
    ensures id in Tables.Ids(prefix + [u], RuleId) <==> id in Tables.Ids(prefix, RuleId) || id == u.id
    ensures id == u.id ==> id !in Tables.Ids(prefix, RuleId) && Tables.FindById(prefix + [u], RuleId, id) == Some(u)
    ensures id != u.id ==> Tables.FindById(prefix + [u], RuleId, id) == Tables.FindById(prefix, RuleId, id)
  {
    var all := prefix + [u];
    assert forall i :: 0 <= i < |prefix| ==> all[i] == prefix[i];
    assert all[|prefix|] == u;
    if prefix != [] {
      assert all[1..] == prefix[1..] + [u];
      assert Tables.DistinctIds(prefix[1..] + [u], RuleId) by {
        forall i, j | 0 <= i < j < |all[1..]| ensures RuleId(all[1..][i]) != RuleId(all[1..][j]) {
          assert all[1..][i] == all[i + 1] && all[1..][j] == all[j + 1];
        }
      }
      FindByIdAppend(prefix[1..], u, id);
      assert Tables.Ids(all, RuleId) == [all[0].id] + Tables.Ids(all[1..], RuleId);
      assert Tables.Ids(prefix, RuleId) == [prefix[0].id] + Tables.Ids(prefix[1..], RuleId);
      if id == u.id {
        assert prefix[0].id != u.id by {
          assert RuleId(all[0]) != RuleId(all[|prefix|]);
        }
      }
    } else {
      assert all == [u];
    }
  }

  /** The error `findRuleById` raises, wrapped by the operation that asked. */
  function RuleNotFound(operation: string, id: int): Exception
  {
    Wrap(BaseRuntime, "Failed newName " + operation + " rule", Raise(RecordNotFound, "Rule not found: " + IntToString(id)))
  }

  class DeviceRuleService {
    const pinService: Pins.PinService
    const commandService: CommandDispatch.DeviceCommandService
    var rules: seq<DeviceRule>
    var nextRuleId: int
    var ruleCache: Option<seq<DeviceRule>>
    var lastDeviceData: map<string, DeviceDataSnapshot>

    ghost predicate Valid()
      reads this
    {
      && Tables.DistinctIds(rules, RuleId)
      && (forall i :: 0 <= i < |rules| ==> rules[i].id < nextRuleId)
      && KeyedByDevice(lastDeviceData)
    }

    constructor (pinService: Pins.PinService, commandService: CommandDispatch.DeviceCommandService)
      ensures Valid() && this.pinService == pinService && this.commandService == commandService
      ensures rules == [] && ruleCache == None && lastDeviceData == map[]
    {
      this.pinService := pinService;
      this.commandService := commandService;
      rules := [];
      nextRuleId := 1;
      ruleCache := None;
      lastDeviceData := map[];
    }

    /** The list `getAllRulesWithCache` answers with: the cached one if any, else the table's. */
    ghost function CachedRules(): seq<DeviceRule>
      reads this
    {
      if ruleCache.Some? then ruleCache.value else rules
    }

    /** `getAllRulesWithCache`: the cached list, filled from the table on first use. */
    method GetAllRulesWithCache() returns (r: seq<DeviceRule>)
      modifies this`ruleCache
      ensures r == old(CachedRules()) && ruleCache == Some(r)
    {
      if ruleCache.None? {
        ruleCache := Some(rules);
      }
      r := ruleCache.value;
    }

    /** `getAllRules`. */
    method GetAllRules() returns (r: seq<DeviceRuleResponse>)
      modifies this`ruleCache
      ensures ruleCache == Some(old(CachedRules()))
      ensures |r| == |old(CachedRules())|
      ensures forall i :: 0 <= i < |r| ==> r[i] == ToResponse(old(CachedRules())[i])
    {
      var all := GetAllRulesWithCache();
      r := seq(|all|, i requires 0 <= i < |all| => ToResponse(all[i]));
    }

    /** `ruleRepository.create(rule)`: the row is stored under the next id. */
    method AppendRow(row: DeviceRule)
      requires Valid() && row.id == nextRuleId
      modifies this`rules, this`nextRuleId
      ensures Valid()
      ensures rules == old(rules) + [row] && nextRuleId == old(nextRuleId) + 1
    {
      rules := rules + [row];
      nextRuleId := nextRuleId + 1;
    }

    /** `ruleRepository.update(id, rule)` for a stored row's id: the key and the id bound stay. */
    method ReplaceRow(current: DeviceRule, row: DeviceRule)
      requires Valid() && current in rules && row.id == current.id
      modifies this`rules
      ensures Valid()
      ensures rules == Tables.ReplaceById(old(rules), RuleId, row.id, row)
    {
      ghost var k :| 0 <= k < |rules| && rules[k] == current;
      assert row.id < nextRuleId;
      var updated := Tables.ReplaceById(rules, RuleId, row.id, row);
      assert forall i :: 0 <= i < |rules| ==> RuleId(updated[i]) == RuleId(rules[i]);
      rules := updated;
    }

    /** `createRule`: a condition that fails validation is refused before anything is stored;
        otherwise the rule is stored disabled under a new id. The cached list is not touched. */
    method CreateRule(request: RuleRequest) returns (r: Result<DeviceRuleResponse, Exception>)
      requires Valid()
      modifies this`rules, this`nextRuleId
      ensures Valid()
      ensures ValidateMaxDifference(request.condition).Some? ==>
                r == Failure(ValidateMaxDifference(request.condition).value)
                && rules == old(rules) && nextRuleId == old(nextRuleId)
      ensures ValidateMaxDifference(request.condition).None? ==>
                var row := DeviceRule(old(nextRuleId), request.name, request.description, false, request.condition, request.action);
                r == Success(ToResponse(row))
                && rules == old(rules) + [row] && nextRuleId == old(nextRuleId) + 1
    {
      var invalid := ValidateMaxDifference(request.condition);
      if invalid.Some? {
        return Failure(invalid.value);
      }
      var row := DeviceRule(nextRuleId, request.name, request.description, false, request.condition, request.action);
      AppendRow(row);
      r := Success(ToResponse(row));
    }

    /** `getRule`. */
    function GetRule(id: int): (r: Result<DeviceRuleResponse, Exception>)
      reads this
      ensures r.Success? <==> id in Tables.Ids(rules, RuleId)
      ensures r.Success? ==> r.value.id == id && exists x :: x in rules && r.value == ToResponse(x)
      ensures r.Failure? ==>
                r.error == RuleNotFound("get", id)
    {
      match Tables.FindById(rules, RuleId, id)
      case Some(x) => Success(ToResponse(x))
      case None => Failure(RuleNotFound("get", id))
    }

    /** `updateRule`: the rule takes the request's fields and keeps its id and flag. */
    method UpdateRule(id: int, request: RuleRequest) returns (r: Result<DeviceRuleResponse, Exception>)
      requires Valid()
      modifies this`rules
      ensures Valid()
      ensures Tables.FindById(old(rules), RuleId, id).None? ==>
                r == Failure(RuleNotFound("update", id))
                && rules == old(rules)
      ensures Tables.FindById(old(rules), RuleId, id).Some? ==>
                var x := Tables.FindById(old(rules), RuleId, id).value;
                var row := DeviceRule(id, request.name, request.description, x.enabled, request.condition, request.action);
                r == Success(ToResponse(row)) && rules == Tables.ReplaceById(old(rules), RuleId, id, row)
    {
      var found := Tables.FindById(rules, RuleId, id);
      if found.None? {
        return Failure(RuleNotFound("update", id));
      }
      var row := DeviceRule(id, request.name, request.description, found.value.enabled, request.condition, request.action);
      ReplaceRow(found.value, row);
      r := Success(ToResponse(row));
    }

    /** `deleteRule`. */
    method DeleteRule(id: int) returns (r: Result<(), Exception>)
      requires Valid()
      modifies this`rules
      ensures Valid()
      ensures Tables.FindById(old(rules), RuleId, id).None? ==>
                r == Failure(RuleNotFound("delete", id))
                && rules == old(rules)
      ensures Tables.FindById(old(rules), RuleId, id).Some? ==>
                r == Success(()) && rules == Tables.RemoveById(old(rules), RuleId, id)
    {
      var found := Tables.FindById(rules, RuleId, id);
      if found.None? {
        return Failure(RuleNotFound("delete", id));
      }
      Tables.RemoveThenFind(rules, RuleId, id, id);
      rules := Tables.RemoveById(rules, RuleId, id);
      r := Success(());
    }

    /** The cache entry expires (Caffeine's time-based eviction). */
    method ExpireRuleCache()
      modifies this`ruleCache
      ensures ruleCache == None
    {
      ruleCache := None;
    }

    /** The `ruleRepository.update(rule.getId(), rule)` loop of `activateRules`: the rules are
        written back one after the other. Ids stay where they were. */
    method WriteBack(updated: seq<DeviceRule>)
      requires Valid()
      modifies this`rules
      ensures Valid()
      ensures rules == WriteBackAll(old(rules), updated)
    {
      ghost var before := rules;
      var i := 0;
      while i < |updated|
        invariant 0 <= i <= |updated|
        invariant rules == WriteBackAll(before, updated[..i])
        invariant |rules| == |before| && forall k :: 0 <= k < |rules| ==> rules[k].id == before[k].id
      {
        var rule := updated[i];
        assert updated[..i + 1][..i] == updated[..i] && updated[..i + 1][i] == rule;
        rules := Tables.ReplaceById(rules, RuleId, rule.id, rule);
        i := i + 1;
      }
      assert updated[..|updated|] == updated;
    }

    /** `activateRules`: with a known pin, every cached rule gets the flag, and each is written
        back to the table under its id. The cached list holds the same objects, so it reflects
        the flag too. An unknown pin changes nothing. */
    method ActivateRules(request: ActivateRequest) returns (r: Result<(), Exception>)
      requires Valid()
      modifies this`rules, this`ruleCache
      ensures Valid()
      ensures pinService.GetPin(request.pinNumber).Failure? ==>
                r == Failure(pinService.GetPin(request.pinNumber).error)
                && rules == old(rules) && ruleCache == old(ruleCache)
      ensures pinService.GetPin(request.pinNumber).Success? ==>
                var updated := Activated(old(CachedRules()), request.activate);
                r == Success(()) && ruleCache == Some(updated) && rules == WriteBackAll(old(rules), updated)
    {
      var pin := pinService.GetPin(request.pinNumber);
      if pin.Failure? {
        return Failure(pin.error);
      }
      var cached := GetAllRulesWithCache();
      var updated := Activated(cached, request.activate);
      WriteBack(updated);
      ruleCache := Some(updated);
      r := Success(());
    }

    /** `executeRuleAction`: the action is handed to the command service as a command request;
        whatever the outcome, the failure is swallowed. Messages already sent stay sent. */
    method ExecuteRuleAction(action: RuleAction) returns (request: SendDeviceCommandRequest)
      modifies commandService`commandCache, commandService.mqttService`published
      ensures request == ToCommandRequest(action)
      ensures old(commandService.mqttService.published) <= commandService.mqttService.published
    {
      request := ToCommandRequest(action);
      var _ := commandService.ExecuteCommand(request);
    }

    /** The `filter(isRuleTriggered).forEach(executeRuleAction)` stream over the given rules and
        the current snapshots; a check that throws ends the stream. */
    method FireTriggeredRules(activeRules: seq<DeviceRule>) returns (sent: seq<SendDeviceCommandRequest>)
      modifies commandService`commandCache, commandService.mqttService`published
      ensures sent == FiredCommands(activeRules, lastDeviceData)
    {
      var last := lastDeviceData;
      sent := [];
      var i := 0;
      while i < |activeRules|
        invariant 0 <= i <= |activeRules|
        invariant sent + FiredCommands(activeRules[i..], last) == FiredCommands(activeRules, last)
      {
        FiredCommandsStep(activeRules, last, i);
        var triggered := IsRuleTriggered(activeRules[i], last);
        if triggered.Failure? {
          break;
        }
        if triggered.value {
          var request := ExecuteRuleAction(activeRules[i].action);
          sent := sent + [request];
        }
        i := i + 1;
      }
    }

    /** `processDeviceUpdate`: when no enabled cached rule lists the device nothing is stored and
        nothing sent. Otherwise the device's snapshot becomes `(deviceName, data, now)`, no other
        snapshot changes, and every enabled rule, not only those listing the device, is checked
        in order; each one that fires has its command executed. The commands are returned. */
    method ProcessDeviceUpdate(deviceName: string, data: map<string, Value>, now: int) returns (sent: seq<SendDeviceCommandRequest>)
      requires Valid()
      modifies this`ruleCache, this`lastDeviceData, commandService`commandCache, commandService.mqttService`published
      ensures Valid()
      ensures ruleCache == Some(old(CachedRules()))
      ensures !IsExistDeviceNameInCriteria(ActiveRules(old(CachedRules())), deviceName) ==>
                lastDeviceData == old(lastDeviceData) && sent == []
      ensures IsExistDeviceNameInCriteria(ActiveRules(old(CachedRules())), deviceName) ==>
                lastDeviceData == old(lastDeviceData)[deviceName := DeviceDataSnapshot(deviceName, data, now)]
                && sent == FiredCommands(ActiveRules(old(CachedRules())), lastDeviceData)
    {
      var all := GetAllRulesWithCache();
      var activeRules := ActiveRules(all);
      if !IsExistDeviceNameInCriteria(activeRules, deviceName) {
        return [];
      }
      lastDeviceData := lastDeviceData[deviceName := DeviceDataSnapshot(deviceName, data, now)];
      sent := FireTriggeredRules(activeRules);
    }
  }
}
