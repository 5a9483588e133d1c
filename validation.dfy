/** The rule check a characteristic must pass before its service is published
    (PeripheralManager.validateCharacteristic). */
module Validation {
  import opened Gatt

  /** Rule 1: a characteristic with a cached value must be read-only. */
  predicate CachedValueViolation(c: Characteristic, perms: set<Permission>) {
    c.value.Some? && (c.properties != {Read} || perms != {Readable})
  }

  /** Rule 2: read needs the readable permission, write and write-without-response the writeable one. */
  predicate PermissionViolation(c: Characteristic, perms: set<Permission>) {
    (Read in c.properties && Readable !in perms)
    || ((Write in c.properties || WriteWithoutResponse in c.properties) && Writeable !in perms)
  }

  /** Rule 3: broadcast and extended properties cannot be published locally. */
  predicate UnsupportedProperty(c: Characteristic) {
    Broadcast in c.properties || ExtendedProperties in c.properties
  }

  /** The coherence a publishable characteristic has, stated as implications. */
  predicate Coherent(props: set<Property>, perms: set<Permission>, value: Option<Bytes>) {
    && (value.Some? ==> props == {Read} && perms == {Readable})
    && (Read in props ==> Readable in perms)
    && (Write in props ==> Writeable in perms)
    && (WriteWithoutResponse in props ==> Writeable in perms)
    && Broadcast !in props
    && ExtendedProperties !in props
  }

  /** None when the characteristic passes, otherwise the reason of the FIRST failing rule.
      A characteristic that is not of the mutable kind is not checked at all. */
  function ValidateCharacteristic(c: Characteristic): (r: Option<string>)
    ensures r.None? <==> (c.mutable.None? || Coherent(c.properties, c.mutable.value.permissions, c.value))
    ensures r.Some? ==> r.value in {CachedValueNotReadOnly, PermissionPropertyMismatch, PropertyNotSupported}
    ensures r == Some(CachedValueNotReadOnly) <==>
              c.mutable.Some? && CachedValueViolation(c, c.mutable.value.permissions)
    ensures r == Some(PermissionPropertyMismatch) <==>
              && c.mutable.Some?
              && !CachedValueViolation(c, c.mutable.value.permissions)
              && PermissionViolation(c, c.mutable.value.permissions)
    ensures r == Some(PropertyNotSupported) <==>
              && c.mutable.Some?
              && !CachedValueViolation(c, c.mutable.value.permissions)
              && !PermissionViolation(c, c.mutable.value.permissions)
              && UnsupportedProperty(c)
  {
    match c.mutable
    case None => None
    case Some(m) =>
      if CachedValueViolation(c, m.permissions) then Some(CachedValueNotReadOnly)
      else if PermissionViolation(c, m.permissions) then Some(PermissionPropertyMismatch)
      else if UnsupportedProperty(c) then Some(PropertyNotSupported)
      else None
  }

  /** The reasons reported while validating `cs` in order, one per failing characteristic. */
  function CharacteristicFailures(cs: seq<Characteristic>): (r: seq<string>)
    ensures |r| <= |cs|
    ensures r == [] <==> forall i :: 0 <= i < |cs| ==> ValidateCharacteristic(cs[i]).None?
  {
    if cs == [] then []
    else
      var init := CharacteristicFailures(cs[..|cs| - 1]);
      assert forall i :: 0 <= i < |cs| - 1 ==> cs[..|cs| - 1][i] == cs[i];
      match ValidateCharacteristic(cs[|cs| - 1])
      case None => init
      case Some(reason) => init + [reason]
  }

  /** The last reason reported is that of the last failing characteristic. */
  lemma {:induction false} LastFailure(cs: seq<Characteristic>)
    requires CharacteristicFailures(cs) != []
    ensures var r := CharacteristicFailures(cs);
      exists i :: 0 <= i < |cs| && ValidateCharacteristic(cs[i]) == Some(r[|r| - 1])
                 && forall j :: i < j < |cs| ==> ValidateCharacteristic(cs[j]).None?
  {
    var r := CharacteristicFailures(cs);
    var init := cs[..|cs| - 1];
    var last := |cs| - 1;
    if ValidateCharacteristic(cs[last]).Some? {
      assert ValidateCharacteristic(cs[last]) == Some(r[|r| - 1]);
    } else {
      assert CharacteristicFailures(init) == r;
      LastFailure(init);
      var i :| 0 <= i < |init| && ValidateCharacteristic(init[i]) == Some(r[|r| - 1])
               && forall j :: i < j < |init| ==> ValidateCharacteristic(init[j]).None?;
      assert init[i] == cs[i];
      forall j | i < j < |cs| ensures ValidateCharacteristic(cs[j]).None? {
        if j < last {
          assert init[j] == cs[j];
        }
      }
    }
  }

  /** A single characteristic reports its own reason, or nothing when it passes. */
  lemma CharacteristicFailuresSingle(c: Characteristic)
    ensures CharacteristicFailures([c]) ==
      match ValidateCharacteristic(c) case Some(reason) => [reason] case None => []
  {
    assert [c][..0] == [];
  }

  /** Validation reports batch by batch: the reasons of a concatenation are the reasons of the
      first part followed by those of the second. */
  lemma {:induction false} CharacteristicFailuresAppend(a: seq<Characteristic>, b: seq<Characteristic>)
    ensures CharacteristicFailures(a + b) == CharacteristicFailures(a) + CharacteristicFailures(b)
  {
    if b == [] {
      assert a + b == a;
    } else {
      var b' := b[..|b| - 1];
      assert (a + b)[..|a + b| - 1] == a + b';
      assert (a + b)[|a + b| - 1] == b[|b| - 1];
      CharacteristicFailuresAppend(a, b');
    }
  }

  /** A characteristic with a cached value and properties {read, write} is rejected,
      with the cached-value reason, whatever its permissions. */
  lemma CachedReadWriteRejected(c: Characteristic)
    requires c.mutable.Some? && c.value.Some? && c.properties == {Read, Write}
    ensures ValidateCharacteristic(c) == Some(CachedValueNotReadOnly)
  {
    assert Write in c.properties;
  }
}
