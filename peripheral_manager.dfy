/** The peripheral-role manager: the services it has added, the centrals subscribed to each
    characteristic, the value history of each characteristic, the adapter's power state and a
    single error slot. Application calls are gated on the adapter being powered on; platform
    callbacks update the same state. Every request the manager issues to the platform is
    appended to `calls`; the platform's answers come in as parameters. */
module PeripheralManagement {
  import opened Gatt
  import Validation
  import opened Registry
  import opened Subscriptions
  import opened ValueEngine

  /** A request issued to the platform's peripheral manager. */
  datatype PlatformCall =
    | AddRequest(service: Service)
    | RemoveRequest(service: Service)
    | StartAdvertisingRequest(serviceUuids: seq<Uuid>)
    | StopAdvertisingRequest
    | UpdateValueRequest(data: Bytes, characteristic: CharRef, centrals: Option<seq<Central>>)
    | Respond(request: AttRequest, result: AttResult)

  /** Everything but the power state and the error slot. */
  datatype Collections = Collections(
    services: seq<Service>,
    subscriptions: SubscriptionMap,
    history: History,
    calls: seq<PlatformCall>)

  /** The added services have a first service with a first characteristic. */
  predicate HasFirstCharacteristic(services: seq<Service>) {
    |services| > 0 && services[0].characteristics.Some? && |services[0].characteristics.value| > 0
  }

  class PeripheralManager {
    var state: PowerState
    var error: Option<ManagerError>
    var subscribedCentrals: SubscriptionMap
    var addedServices: seq<Service>
    var characteristicData: History
    var calls: seq<PlatformCall>

    function Snapshot(): Collections
      reads this
    {
      Collections(addedServices, subscribedCentrals, characteristicData, calls)
    }

    /** A fresh manager: nothing added, nothing recorded, the adapter's state not yet known. */
    constructor ()
      ensures state == Unknown && error == None
      ensures Snapshot() == Collections([], map[], map[], [])
    {
      state := Unknown;
      error := None;
      subscribedCentrals := map[];
      addedServices := [];
      characteristicData := map[];
      calls := [];
    }

    /** True when powered on; otherwise reports that Bluetooth is not available. */
    method CheckBluetooth() returns (ok: bool)
      modifies this`error
      ensures ok <==> state == PoweredOn
      ensures error == if ok then old(error) else Some(BluetoothNotAvailable)
    {
      if state != PoweredOn {
        error := Some(BluetoothNotAvailable);
        return false;
      }
      return true;
    }

    /** Runs the three characteristic rules, reporting the first failing rule's reason. */
    method ValidateCharacteristic(c: Characteristic) returns (valid: bool)
      modifies this`error
      ensures valid <==> Validation.ValidateCharacteristic(c).None?
      ensures error == if valid then old(error) else Some(AddServiceError(Validation.ValidateCharacteristic(c).value))
    {
      if c.mutable.Some? {
        var perms := c.mutable.value.permissions;
        if c.value.Some? && (c.properties != {Read} || perms != {Readable}) {
          error := Some(AddServiceError(CachedValueNotReadOnly));
          return false;
        }
        if (Read in c.properties && Readable !in perms)
          || ((Write in c.properties || WriteWithoutResponse in c.properties) && Writeable !in perms)
        {
          error := Some(AddServiceError(PermissionPropertyMismatch));
          return false;
        }
        if Broadcast in c.properties || ExtendedProperties in c.properties {
          error := Some(AddServiceError(PropertyNotSupported));
          return false;
        }
      }
      return true;
    }

    /** An included service must already be added (matched by UUID); otherwise reports. */
    method ValidateIncludedService(u: Uuid) returns (valid: bool)
      modifies this`error
      ensures valid <==> HasUuid(addedServices, u)
      ensures error == if valid then old(error) else Some(AddServiceError(IncludedNotPublished))
    {
      valid := HasUuid(addedServices, u);
      if !valid {
        error := Some(AddServiceError(IncludedNotPublished));
      }
    }

    /** Adds a service unless its UUID is taken. Every characteristic and included service is
        checked and each failure reported, but a failure does not stop the add. */
    method AddService(service: Service)
      modifies this
      ensures state == old(state)
      ensures subscribedCentrals == old(subscribedCentrals) && characteristicData == old(characteristicData)
      ensures old(state) != PoweredOn ==>
        Snapshot() == old(Snapshot()) && error == Some(BluetoothNotAvailable)
      ensures old(state) == PoweredOn && HasUuid(old(addedServices), service.uuid) ==>
        Snapshot() == old(Snapshot()) && error == Some(AddServiceError(ServiceExists))
      ensures old(state) == PoweredOn && !HasUuid(old(addedServices), service.uuid) ==>
        && addedServices == old(addedServices) + [service]
        && calls == old(calls) + [AddRequest(service)]
        && error == AfterReports(old(error), AddServiceFailures(service, old(addedServices)))
      ensures DistinctUuids(old(addedServices)) ==> DistinctUuids(addedServices)
    {
      var ok := CheckBluetooth();
      if !ok {
        return;
      }
      if HasUuid(addedServices, service.uuid) {
        error := Some(AddServiceError(ServiceExists));
        return;
      }

      var characteristics := service.characteristics.GetOr([]);
      ghost var before := error;
      for i := 0 to |characteristics|
        invariant state == old(state) && Snapshot() == old(Snapshot())
        invariant error == AfterReports(before, Validation.CharacteristicFailures(characteristics[..i]))
      {
        assert characteristics[..i + 1][..i] == characteristics[..i];
        var valid := ValidateCharacteristic(characteristics[i]);
        if !valid {
          // the closure's early return: it ends this iteration only, not the add
          continue;
        }
      }
      assert characteristics[..|characteristics|] == characteristics;

      var included := service.includedServices.GetOr([]);
      ghost var afterCharacteristics := error;
      for i := 0 to |included|
        invariant state == old(state) && Snapshot() == old(Snapshot())
        invariant error == AfterReports(afterCharacteristics, IncludedFailures(included[..i], addedServices))
      {
        assert included[..i + 1][..i] == included[..i];
        var valid := ValidateIncludedService(included[i]);
        if !valid {
          // as above: the add goes ahead whatever the check says
          continue;
        }
      }
      assert included[..|included|] == included;
      AfterReportsAppend(before, Validation.CharacteristicFailures(characteristics),
                         IncludedFailures(included, addedServices));

      calls := calls + [AddRequest(service)];
      if DistinctUuids(addedServices) {
        AppendNewKeepsDistinct(addedServices, service);
      }
      addedServices := addedServices + [service];
    }

    /** Removes a service (by identity) unless some added service includes its UUID. */
    method RemoveService(service: Service)
      modifies this
      ensures state == old(state)
      ensures subscribedCentrals == old(subscribedCentrals) && characteristicData == old(characteristicData)
      ensures old(state) != PoweredOn ==>
        Snapshot() == old(Snapshot()) && error == Some(BluetoothNotAvailable)
      ensures old(state) == PoweredOn && IncludedByAny(old(addedServices), service.uuid) ==>
        Snapshot() == old(Snapshot()) && error == Some(RemoveServiceError(IncludedCannotBeRemoved))
      ensures old(state) == PoweredOn && !IncludedByAny(old(addedServices), service.uuid) ==>
        && addedServices == RemoveAll(old(addedServices), ByHandle(service.handle))
        && calls == old(calls) + [RemoveRequest(service)]
        && error == old(error)
      ensures DistinctUuids(old(addedServices)) ==> DistinctUuids(addedServices)
    {
      var ok := CheckBluetooth();
      if !ok {
        return;
      }
      for i := 0 to |addedServices|
        invariant state == old(state) && Snapshot() == old(Snapshot()) && error == old(error)
        invariant forall j :: 0 <= j < i ==> !Includes(addedServices[j], service.uuid)
      {
        if Includes(addedServices[i], service.uuid) {
          error := Some(RemoveServiceError(IncludedCannotBeRemoved));
          return;
        }
      }
      if DistinctUuids(addedServices) {
        RemoveAllKeepsDistinct(addedServices, ByHandle(service.handle));
      }
      addedServices := RemoveAll(addedServices, ByHandle(service.handle));
      calls := calls + [RemoveRequest(service)];
    }

    /** Advertises the UUIDs of the added services, in order; refuses with none added. */
    method StartAdvertising()
      modifies this
      ensures state == old(state)
      ensures addedServices == old(addedServices)
      ensures subscribedCentrals == old(subscribedCentrals) && characteristicData == old(characteristicData)
      ensures old(state) != PoweredOn ==>
        calls == old(calls) && error == Some(BluetoothNotAvailable)
      ensures old(state) == PoweredOn && old(addedServices) == [] ==>
        calls == old(calls) && error == Some(StartAdvertisingError(NothingToAdvertise))
      ensures old(state) == PoweredOn && old(addedServices) != [] ==>
        calls == old(calls) + [StartAdvertisingRequest(UuidsOf(addedServices))] && error == old(error)
    {
      var ok := CheckBluetooth();
      if !ok {
        return;
      }
      if addedServices == [] {
        error := Some(StartAdvertisingError(NothingToAdvertise));
        return;
      }
      var serviceUuids := UuidsOf(addedServices);
      calls := calls + [StartAdvertisingRequest(serviceUuids)];
    }

    /** Stops advertising, in any state. */
    method StopAdvertising()
      modifies this`calls
      ensures calls == old(calls) + [StopAdvertisingRequest]
    {
      calls := calls + [StopAdvertisingRequest];
    }

    /** Pushes `data` to characteristic `c` (to `centrals`, or to every subscriber when absent).
        Throws, before any push, a payload over the effective MTU or a characteristic that is
        not of the mutable kind. `accepted` is the platform's answer: when its transmit queue
        is full the error slot is set but nothing is thrown. An accepted value is prepended to
        the characteristic's history. */
    method UpdateValueHelper(data: Bytes, c: Characteristic, centrals: Option<seq<Central>>, accepted: bool)
      returns (thrown: Option<ManagerError>)
      modifies this`characteristicData, this`calls, this`error
      ensures thrown == UpdateFailure(data, c, centrals)
      ensures thrown.Some? ==>
        calls == old(calls) && characteristicData == old(characteristicData) && error == old(error)
      ensures thrown.None? ==> calls == old(calls) + [UpdateValueRequest(data, c.ref, centrals)]
      ensures thrown.None? && accepted ==>
        characteristicData == Push(old(characteristicData), c.ref, data) && error == old(error)
      ensures thrown.None? && !accepted ==>
        characteristicData == old(characteristicData) && error == Some(UpdateValueError(TransmitQueueFull))
    {
      var mtu := EffectiveMtu(centrals);
      if |data| > mtu {
        return Some(UpdateValueError(DataTooLong));
      }
      if c.mutable.None? {
        return Some(UpdateValueError(NotMutable));
      }
      calls := calls + [UpdateValueRequest(data, c.ref, centrals)];
      if accepted {
        if c.ref !in characteristicData {
          characteristicData := characteristicData[c.ref := []];
        }
        characteristicData := characteristicData[c.ref := [data] + characteristicData[c.ref]];
      } else {
        error := Some(UpdateValueError(TransmitQueueFull));
      }
      return None;
    }

    /** The application's update: gated on power, and always aimed at the FIRST characteristic
        of the FIRST added service, whatever `characteristic` says (the force-unwraps there make
        an added service with a characteristic a demand on the caller). */
    method UpdateValue(data: Bytes, characteristic: Characteristic, centrals: Option<seq<Central>>, accepted: bool)
      requires state == PoweredOn ==> HasFirstCharacteristic(addedServices)
      modifies this
      ensures state == old(state)
      ensures addedServices == old(addedServices) && subscribedCentrals == old(subscribedCentrals)
      ensures old(state) != PoweredOn ==>
        Snapshot() == old(Snapshot()) && error == Some(BluetoothNotAvailable)
      ensures old(state) == PoweredOn ==>
        var target := addedServices[0].characteristics.value[0];
        var failure := UpdateFailure(data, target, centrals);
        && (failure.Some? ==> calls == old(calls) && characteristicData == old(characteristicData) && error == failure)
        && (failure.None? ==> calls == old(calls) + [UpdateValueRequest(data, target.ref, centrals)])
        && (failure.None? && accepted ==>
              characteristicData == Push(old(characteristicData), target.ref, data) && error == old(error))
        && (failure.None? && !accepted ==>
              characteristicData == old(characteristicData) && error == Some(UpdateValueError(TransmitQueueFull)))
    {
      var ok := CheckBluetooth();
      if !ok {
        return;
      }
      var thrown := UpdateValueHelper(data, addedServices[0].characteristics.value[0], centrals, accepted);
      if thrown.Some? {
        error := thrown;
      }
    }

    /** The platform reports a new power state; any state but powered on is reported. */
    method DidUpdateState(newState: PowerState)
      modifies this`state, this`error
      ensures state == newState
      ensures error == if newState == PoweredOn then old(error) else Some(BluetoothNotAvailable)
    {
      state := newState;
      if state != PoweredOn {
        error := Some(BluetoothNotAvailable);
      }
    }

    /** State restoration after relaunch: the restored services replace the added ones (no
        services when the platform gave none), and each restored mutable characteristic's
        reported subscribers overwrite that characteristic's entry, or remove it when the
        platform reported no list; other entries stay. */
    method WillRestoreState(restored: Option<seq<Service>>)
      modifies this`addedServices, this`subscribedCentrals
      ensures addedServices == restored.GetOr([])
      ensures subscribedCentrals == RestoreAll(old(subscribedCentrals), AllCharacteristics(restored.GetOr([])))
    {
      var services := restored.GetOr([]);
      addedServices := services;
      ghost var m0 := subscribedCentrals;
      for i := 0 to |services|
        invariant addedServices == services
        invariant subscribedCentrals == RestoreAll(m0, AllCharacteristics(services[..i]))
      {
        assert services[..i + 1][..i] == services[..i];
        ghost var done := AllCharacteristics(services[..i]);
        assert AllCharacteristics(services[..i + 1]) == done + services[i].characteristics.GetOr([]);
        var service := services[i];
        if service.characteristics.None? {
          assert done + [] == done;
          continue;
        }
        var characteristics := service.characteristics.value;
        assert done + characteristics[..0] == done;
        for j := 0 to |characteristics|
          invariant addedServices == services
          invariant subscribedCentrals == RestoreAll(m0, done + characteristics[..j])
        {
          assert (done + characteristics[..j + 1])[..|done| + j] == done + characteristics[..j];
          var c := characteristics[j];
          if c.mutable.None? {
            continue;
          }
          var reported := c.mutable.value.subscribedCentrals;
          if reported.Some? {
            subscribedCentrals := subscribedCentrals[c.ref := reported.value];
          } else {
            subscribedCentrals := subscribedCentrals - {c.ref};
          }
        }
        assert characteristics[..|characteristics|] == characteristics;
      }
      assert services[..|services|] == services;
    }

    /** The platform's answer to an add request: on failure every service with that UUID is
        dropped and the platform's reason reported; on success nothing happens. */
    method DidAdd(service: Service, failure: Option<string>)
      modifies this`addedServices, this`error
      ensures failure.None? ==> addedServices == old(addedServices) && error == old(error)
      ensures failure.Some? ==>
        addedServices == RemoveAll(old(addedServices), ByUuid(service.uuid))
        && error == Some(AddServiceError(failure.value))
      ensures DistinctUuids(old(addedServices)) ==> DistinctUuids(addedServices)
    {
      if failure.Some? {
        if DistinctUuids(addedServices) {
          RemoveAllKeepsDistinct(addedServices, ByUuid(service.uuid));
        }
        addedServices := RemoveAll(addedServices, ByUuid(service.uuid));
        error := Some(AddServiceError(failure.value));
      }
    }

    /** The platform's answer to a start-advertising request: a failure is reported. */
    method DidStartAdvertising(failure: Option<string>)
      modifies this`error
      ensures error == if failure.Some? then Some(StartAdvertisingError(failure.value)) else old(error)
    {
      if failure.Some? {
        error := Some(StartAdvertisingError(failure.value));
      }
    }

    /** A central subscribed to characteristic `c`. */
    method DidSubscribe(central: CentralId, c: CharRef)
      modifies this`subscribedCentrals
      ensures subscribedCentrals == Subscribe(old(subscribedCentrals), c, central)
    {
      if c in subscribedCentrals {
        subscribedCentrals := subscribedCentrals[c := Without(subscribedCentrals[c], central)];
      }
      if c !in subscribedCentrals {
        subscribedCentrals := subscribedCentrals[c := []];
      }
      subscribedCentrals := subscribedCentrals[c := subscribedCentrals[c] + [central]];
    }

    /** A central unsubscribed from characteristic `c`. */
    method DidUnsubscribe(central: CentralId, c: CharRef)
      modifies this`subscribedCentrals
      ensures subscribedCentrals == Unsubscribe(old(subscribedCentrals), c, central)
    {
      if c in subscribedCentrals {
        subscribedCentrals := subscribedCentrals[c := Without(subscribedCentrals[c], central)];
      }
    }

    /** A read request is always answered with success, carrying the newest recorded value of
        its characteristic, else the characteristic's cached value. */
    method DidReceiveRead(request: AttRequest)
      modifies this`calls
      ensures calls == old(calls)
        + [Respond(request.(value := ReadResponse(characteristicData, request.characteristic)), Success)]
    {
      var newest := if request.characteristic.ref in characteristicData
                       && |characteristicData[request.characteristic.ref]| > 0
                    then Some(characteristicData[request.characteristic.ref][0])
                    else None;
      var value := if newest.Some? then newest else request.characteristic.value;
      calls := calls + [Respond(request.(value := value), Success)];
    }

    /** A write batch: the valued requests' bytes past their offsets are concatenated and
        recorded against the FIRST request's characteristic with no target centrals; only the
        first request is answered, success unless the helper throws. An empty batch gets no
        answer. A full transmit queue does not throw, so that batch is still answered success. */
    method DidReceiveWrite(requests: seq<AttRequest>, accepted: bool)
      modifies this`characteristicData, this`calls, this`error
      ensures |requests| == 0 ==>
        calls == old(calls) && characteristicData == old(characteristicData) && error == old(error)
      ensures |requests| > 0 ==>
        var first := requests[0];
        var data := WriteBuffer(requests);
        var failure := UpdateFailure(data, first.characteristic, None);
        && (failure.Some? ==>
              && calls == old(calls) + [Respond(first, InvalidHandle)]
              && characteristicData == old(characteristicData) && error == failure)
        && (failure.None? ==>
              calls == old(calls) + [UpdateValueRequest(data, first.characteristic.ref, None), Respond(first, Success)])
        && (failure.None? && accepted ==>
              characteristicData == Push(old(characteristicData), first.characteristic.ref, data) && error == old(error))
        && (failure.None? && !accepted ==>
              characteristicData == old(characteristicData) && error == Some(UpdateValueError(TransmitQueueFull)))
    {
      var data := AssembleWriteBuffer(requests);
      if |requests| > 0 {
        var first := requests[0];
        var thrown := UpdateValueHelper(data, first.characteristic, None, accepted);
        if thrown.None? {
          calls := calls + [Respond(first, Success)];
        } else {
          error := thrown;
          calls := calls + [Respond(first, InvalidHandle)];
        }
      }
    }
  }
}
