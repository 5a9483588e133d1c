/** The list of added services and the queries and removals the manager runs over it:
    duplicate and inclusion checks by UUID, removal by identity or by UUID, the advertised UUIDs. */
module Registry {
  import opened Gatt
  import opened Validation

  /** Some service in `services` has UUID `u`. */
  predicate HasUuid(services: seq<Service>, u: Uuid) {
    exists i :: 0 <= i < |services| && services[i].uuid == u
  }

  /** `s` lists an included service with UUID `u`. */
  predicate Includes(s: Service, u: Uuid) {
    s.includedServices.Some? && u in s.includedServices.value
  }

  /** Some service in `services` includes a service with UUID `u`. */
  predicate IncludedByAny(services: seq<Service>, u: Uuid) {
    exists i :: 0 <= i < |services| && Includes(services[i], u)
  }

  /** No two services share a UUID. */
  predicate DistinctUuids(services: seq<Service>) {
    forall i, j :: 0 <= i < j < |services| ==> services[i].uuid != services[j].uuid
  }

  /** How a removal picks its victims: by object identity, or by UUID. */
  datatype Selector = ByHandle(handle: nat) | ByUuid(uuid: Uuid)

  predicate Selects(sel: Selector, s: Service) {
    match sel
    case ByHandle(h) => s.handle == h
    case ByUuid(u) => s.uuid == u
  }

  /** `services` without every entry `sel` selects, the others kept in order. */
  function RemoveAll(services: seq<Service>, sel: Selector): (r: seq<Service>)
    ensures |r| <= |services|
    ensures forall s :: s in r <==> s in services && !Selects(sel, s)
  {
    if services == [] then []
    else if Selects(sel, services[0]) then RemoveAll(services[1..], sel)
    else [services[0]] + RemoveAll(services[1..], sel)
  }

  /** Removal keeps order: it works piece by piece on a concatenation. */
  lemma {:induction false} RemoveAllAppend(a: seq<Service>, b: seq<Service>, sel: Selector)
    ensures RemoveAll(a + b, sel) == RemoveAll(a, sel) + RemoveAll(b, sel)
  {
    if a == [] {
      assert a + b == b;
    } else {
      assert (a + b)[0] == a[0];
      assert (a + b)[1..] == a[1..] + b;
      RemoveAllAppend(a[1..], b, sel);
    }
  }

  /** Removal leaves alone a list in which nothing is selected. */
  lemma {:induction false} RemoveAllNothingSelected(services: seq<Service>, sel: Selector)
    requires forall i :: 0 <= i < |services| ==> !Selects(sel, services[i])
    ensures RemoveAll(services, sel) == services
  {
    if services != [] {
      RemoveAllNothingSelected(services[1..], sel);
    }
  }

  /** Removing keeps UUIDs distinct. */
  lemma {:induction false} RemoveAllKeepsDistinct(services: seq<Service>, sel: Selector)
    requires DistinctUuids(services)
    ensures DistinctUuids(RemoveAll(services, sel))
  {
    if services != [] {
      var rest := services[1..];
      assert DistinctUuids(rest) by {
        forall i, j | 0 <= i < j < |rest| ensures rest[i].uuid != rest[j].uuid {
          assert rest[i] == services[i + 1] && rest[j] == services[j + 1];
        }
      }
      RemoveAllKeepsDistinct(rest, sel);
      var r := RemoveAll(rest, sel);
      if !Selects(sel, services[0]) {
        forall k | 0 <= k < |r| ensures r[k].uuid != services[0].uuid {
          assert r[k] in rest;
          var j :| 0 <= j < |rest| && rest[j] == r[k];
          assert services[j + 1] == r[k];
        }
        assert DistinctUuids([services[0]] + r) by {
          var t := [services[0]] + r;
          forall i, j | 0 <= i < j < |t| ensures t[i].uuid != t[j].uuid {
            if i == 0 {
              assert t[j] == r[j - 1];
            } else {
              assert t[i] == r[i - 1] && t[j] == r[j - 1];
            }
          }
        }
      }
    }
  }

  /** Appending a service whose UUID is new keeps UUIDs distinct. */
  lemma AppendNewKeepsDistinct(services: seq<Service>, s: Service)
    requires DistinctUuids(services) && !HasUuid(services, s.uuid)
    ensures DistinctUuids(services + [s])
  {
    var t := services + [s];
    forall i, j | 0 <= i < j < |t| ensures t[i].uuid != t[j].uuid {
      if j == |services| {
        assert t[i] == services[i];
      } else {
        assert t[i] == services[i] && t[j] == services[j];
      }
    }
  }

  /** The UUIDs of `services`, in the same order. */
  function UuidsOf(services: seq<Service>): (r: seq<Uuid>)
    ensures |r| == |services|
    ensures forall i :: 0 <= i < |services| ==> r[i] == services[i].uuid
  {
    if services == [] then [] else [services[0].uuid] + UuidsOf(services[1..])
  }

  /** How many of the UUIDs in `incl` no service in `added` has. */
  function MissingCount(incl: seq<Uuid>, added: seq<Service>): nat {
    if incl == [] then 0
    else MissingCount(incl[..|incl| - 1], added) + (if HasUuid(added, incl[|incl| - 1]) then 0 else 1)
  }

  /** The reasons reported while checking the included services `incl` against `added`:
      one per included UUID that no added service has. */
  function IncludedFailures(incl: seq<Uuid>, added: seq<Service>): (r: seq<string>)
    ensures |r| <= |incl|
    ensures r == [] <==> forall i :: 0 <= i < |incl| ==> HasUuid(added, incl[i])
    ensures forall k :: 0 <= k < |r| ==> r[k] == IncludedNotPublished
    ensures |r| == MissingCount(incl, added)
  {
    if incl == [] then []
    else
      var init := IncludedFailures(incl[..|incl| - 1], added);
      assert forall i :: 0 <= i < |incl| - 1 ==> incl[..|incl| - 1][i] == incl[i];
      if HasUuid(added, incl[|incl| - 1]) then init else init + [IncludedNotPublished]
  }

  /** Checking reports batch by batch: the reasons of a concatenation are the reasons of the
      first part followed by those of the second. */
  lemma {:induction false} IncludedFailuresAppend(a: seq<Uuid>, b: seq<Uuid>, added: seq<Service>)
    ensures IncludedFailures(a + b, added) == IncludedFailures(a, added) + IncludedFailures(b, added)
  {
    if b == [] {
      assert a + b == a;
    } else {
      var b' := b[..|b| - 1];
      assert (a + b)[..|a + b| - 1] == a + b';
      assert (a + b)[|a + b| - 1] == b[|b| - 1];
      IncludedFailuresAppend(a, b', added);
    }
  }

  /** Every reason reported while adding `service` to `added`: characteristics first, then
      included services. */
  function AddServiceFailures(service: Service, added: seq<Service>): seq<string> {
    CharacteristicFailures(service.characteristics.GetOr([]))
      + IncludedFailures(service.includedServices.GetOr([]), added)
  }

  /** The error slot after each reason in `reasons` was reported in turn as an add-service
      error: the last one wins, and with none the slot keeps `prev`. */
  function AfterReports(prev: Option<ManagerError>, reasons: seq<string>): Option<ManagerError> {
    if reasons == [] then prev else Some(AddServiceError(reasons[|reasons| - 1]))
  }

  /** Reporting a batch after another is reporting their concatenation. */
  lemma AfterReportsAppend(prev: Option<ManagerError>, a: seq<string>, b: seq<string>)
    ensures AfterReports(AfterReports(prev, a), b) == AfterReports(prev, a + b)
  {
    if b != [] {
      assert (a + b)[|a + b| - 1] == b[|b| - 1];
    }
  }

  /** Including a service that is not yet added yields exactly one report, the
      unpublished-include reason (the add itself still goes ahead). */
  lemma UnpublishedIncludeReported(added: seq<Service>, s: Service, a: Uuid)
    requires s.characteristics.None? && s.includedServices == Some([a]) && !HasUuid(added, a)
    ensures AddServiceFailures(s, added) == [IncludedNotPublished]
    ensures AfterReports(None, AddServiceFailures(s, added)) == Some(AddServiceError(IncludedNotPublished))
  {
    assert [a][..0] == [];
  }
}
