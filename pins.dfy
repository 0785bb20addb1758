/** The pin store (`PinService` over `PinRepository`): at most two pins may be created, and every
    other operation finds its pin by number first. Every failure is rethrown wrapped in a
    `BaseRuntimeException` that names the operation. */
module Pins {
  import opened Wrappers
  import opened Exceptions
  import Tables

  /** A row of `pin_table`. */
  datatype Pin = Pin(id: int, pinNumber: string)

  function PinId(p: Pin): int { p.id }

  const PinNotFound := Raise(RecordNotFound, "Pin not found")

  /** `findByPinNumber(...).orElseThrow(...)`: the first pin with the number. */
  function FindPinEntity(pins: seq<Pin>, pinNumber: string): (r: Result<Pin, Exception>)
    ensures r.Success? <==> exists i :: 0 <= i < |pins| && pins[i].pinNumber == pinNumber
    ensures r.Success? ==> r.value in pins && r.value.pinNumber == pinNumber
    ensures r.Failure? ==> r.error == PinNotFound
  {
    if pins == [] then Failure(PinNotFound)
    else if pins[0].pinNumber == pinNumber then Success(pins[0])
    else FindPinEntity(pins[1..], pinNumber)
  }

  /** The pin found is the first one with the number: no earlier pin has it. */
  lemma {:induction false} FindPinEntityIsFirst(pins: seq<Pin>, pinNumber: string, k: int)
    requires 0 <= k < |pins| && pins[k].pinNumber == pinNumber
    requires forall j :: 0 <= j < k ==> pins[j].pinNumber != pinNumber
    ensures FindPinEntity(pins, pinNumber) == Success(pins[k])
  {
    if k > 0 {
      FindPinEntityIsFirst(pins[1..], pinNumber, k - 1);
    }
  }

  class PinService {
    var pins: seq<Pin>
    var nextPinId: int

    ghost predicate Valid()
      reads this
    {
      Tables.DistinctIds(pins, PinId) && forall i :: 0 <= i < |pins| ==> pins[i].id < nextPinId
    }

    constructor ()
      ensures Valid() && pins == []
    {
      pins := [];
      nextPinId := 1;
    }

    /** `createPin`: refused once two or more pins exist, so a store of at most two pins stays
        that way; otherwise exactly one pin is added, under a new id, and returned. */
    method CreatePin(pinNumber: string) returns (r: Result<Pin, Exception>)
      requires Valid()
      modifies this
      ensures Valid()
      ensures old(|pins|) > 1 ==>
                r == Failure(Wrap(BaseRuntime, "Failed newName create pin",
                                  Raise(BaseRuntime, "Cannot create more than 2 pins")))
                && pins == old(pins) && nextPinId == old(nextPinId)
      ensures old(|pins|) <= 1 ==>
                r == Success(Pin(old(nextPinId), pinNumber))
                && pins == old(pins) + [r.value] && nextPinId == old(nextPinId) + 1
      ensures r.Success? ==> r.value.id !in Tables.Ids(old(pins), PinId)
      ensures old(|pins|) <= 2 ==> |pins| <= 2
    {
      var allPins := pins;
      if |allPins| > 1 {
        r := Failure(Wrap(BaseRuntime, "Failed newName create pin",
                          Raise(BaseRuntime, "Cannot create more than 2 pins")));
        return;
      }
      var entity := Pin(nextPinId, pinNumber);
      pins := pins + [entity];
      nextPinId := nextPinId + 1;
      r := Success(entity);
    }

    /** `getPin`: the first pin with the number, or the lookup failure wrapped. */
    function GetPin(pinNumber: string): (r: Result<Pin, Exception>)
      reads this
      ensures r.Success? <==> exists i :: 0 <= i < |pins| && pins[i].pinNumber == pinNumber
      ensures r.Success? ==> r == FindPinEntity(pins, pinNumber)
      ensures r.Failure? ==> r.error == Wrap(BaseRuntime, "Failed newName get pin", PinNotFound)
    {
      match FindPinEntity(pins, pinNumber)
      case Success(p) => Success(p)
      case Failure(e) => Failure(Wrap(BaseRuntime, "Failed newName get pin", e))
    }

    /** `updatePin`: the pin found by number gets the new number and is written back under its
        own id; with no such pin nothing changes. */
    method UpdatePin(pinNumber: string, newPinNumber: string) returns (r: Result<Pin, Exception>)
      requires Valid()
      modifies this
      ensures Valid() && nextPinId == old(nextPinId)
      ensures FindPinEntity(old(pins), pinNumber).Failure? ==>
                r == Failure(Wrap(BaseRuntime, "Failed newName update pin", PinNotFound)) && pins == old(pins)
      ensures FindPinEntity(old(pins), pinNumber).Success? ==>
                var p := FindPinEntity(old(pins), pinNumber).value;
                r == Success(Pin(p.id, newPinNumber))
                && pins == Tables.ReplaceById(old(pins), PinId, p.id, r.value)
    {
      var found := FindPinEntity(pins, pinNumber);
      if found.Failure? {
        r := Failure(Wrap(BaseRuntime, "Failed newName update pin", found.error));
        return;
      }
      var entity := found.value.(pinNumber := newPinNumber);
      Tables.ReplaceThenFind(pins, PinId, entity.id, entity, entity.id);
      pins := Tables.ReplaceById(pins, PinId, entity.id, entity);
      r := Success(entity);
    }

    /** `deletePin`: removes the id of the pin found by number and nothing else. */
    method DeletePin(pinNumber: string) returns (r: Result<(), Exception>)
      requires Valid()
      modifies this
      ensures Valid() && nextPinId == old(nextPinId)
      ensures FindPinEntity(old(pins), pinNumber).Failure? ==>
                r == Failure(Wrap(BaseRuntime, "Failed newName delete pin", PinNotFound)) && pins == old(pins)
      ensures FindPinEntity(old(pins), pinNumber).Success? ==>
                r == Success(()) && pins == Tables.RemoveById(old(pins), PinId, FindPinEntity(old(pins), pinNumber).value.id)
    {
      var found := FindPinEntity(pins, pinNumber);
      if found.Failure? {
        r := Failure(Wrap(BaseRuntime, "Failed newName delete pin", found.error));
        return;
      }
      Tables.RemoveThenFind(pins, PinId, found.value.id, found.value.id);
      pins := Tables.RemoveById(pins, PinId, found.value.id);
      r := Success(());
    }
  }
}
