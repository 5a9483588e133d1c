/** Which centrals are subscribed to which characteristic: the dictionary the manager keeps
    from characteristic to an ordered list of centrals, with the subscribe, unsubscribe and
    restore updates the platform callbacks apply to it. */
module Subscriptions {
  import opened Gatt

  type SubscriptionMap = map<CharRef, seq<CentralId>>

  /** How many times `x` occurs in `s`. */
  function Occurrences(s: seq<CentralId>, x: CentralId): nat {
    if s == [] then 0 else (if s[0] == x then 1 else 0) + Occurrences(s[1..], x)
  }

  lemma {:induction false} OccurrencesAppend(a: seq<CentralId>, b: seq<CentralId>, x: CentralId)
    ensures Occurrences(a + b, x) == Occurrences(a, x) + Occurrences(b, x)
  {
    if a == [] {
      assert a + b == b;
    } else {
      assert (a + b)[0] == a[0] && (a + b)[1..] == a[1..] + b;
      OccurrencesAppend(a[1..], b, x);
    }
  }

  lemma {:induction false} OccurrencesPositive(s: seq<CentralId>, x: CentralId)
    ensures Occurrences(s, x) > 0 <==> x in s
  {
    if s != [] {
      OccurrencesPositive(s[1..], x);
      assert x in s <==> s[0] == x || x in s[1..];
    }
  }

  /** `s` with every occurrence of `x` removed, the other centrals kept in order. */
  function Without(s: seq<CentralId>, x: CentralId): (r: seq<CentralId>)
    ensures forall y :: y in r <==> y in s && y != x
  {
    if s == [] then []
    else if s[0] == x then Without(s[1..], x)
    else [s[0]] + Without(s[1..], x)
  }

  /** Removing `x` drops exactly its occurrences and no other central's. */
  lemma {:induction false} WithoutCounts(s: seq<CentralId>, x: CentralId, y: CentralId)
    ensures Occurrences(Without(s, x), x) == 0
    ensures y != x ==> Occurrences(Without(s, x), y) == Occurrences(s, y)
    ensures |Without(s, x)| == |s| - Occurrences(s, x)
  {
    if s != [] {
      WithoutCounts(s[1..], x, y);
    }
  }

  /** Removal works piece by piece on a concatenation (so it keeps relative order). */
  lemma {:induction false} WithoutAppend(a: seq<CentralId>, b: seq<CentralId>, x: CentralId)
    ensures Without(a + b, x) == Without(a, x) + Without(b, x)
  {
    if a == [] {
      assert a + b == b;
    } else {
      assert (a + b)[0] == a[0] && (a + b)[1..] == a[1..] + b;
      WithoutAppend(a[1..], b, x);
    }
  }

  /** Removing a central that is absent changes nothing. */
  lemma {:induction false} WithoutAbsent(s: seq<CentralId>, x: CentralId)
    requires x !in s
    ensures Without(s, x) == s
  {
    if s != [] {
      WithoutAbsent(s[1..], x);
    }
  }

  /** The centrals recorded for `c`, none when the key is absent. */
  function SubscribersOf(m: SubscriptionMap, c: CharRef): seq<CentralId> {
    if c in m then m[c] else []
  }

  /** The map after `x` subscribes to `c`: any earlier entry for `x` dropped, `x` appended. */
  function Subscribe(m: SubscriptionMap, c: CharRef, x: CentralId): SubscriptionMap {
    m[c := Without(SubscribersOf(m, c), x) + [x]]
  }

  /** The map after `x` unsubscribes from `c`: every entry for `x` dropped, an empty list kept,
      nothing at all when the key is absent. */
  function Unsubscribe(m: SubscriptionMap, c: CharRef, x: CentralId): SubscriptionMap {
    if c in m then m[c := Without(m[c], x)] else m
  }

  /** After a subscribe, `x` is recorded exactly once, as the last subscriber of `c`; the other
      centrals of `c` keep their relative order; every other key is untouched. */
  lemma SubscribeSpec(m: SubscriptionMap, c: CharRef, x: CentralId)
    ensures var r := Subscribe(m, c, x);
      && r.Keys == m.Keys + {c}
      && (forall k :: k in m && k != c ==> r[k] == m[k])
      && |r[c]| > 0 && r[c][|r[c]| - 1] == x
      && Occurrences(r[c], x) == 1
      && Without(r[c], x) == Without(SubscribersOf(m, c), x)
  {
    var old_ := Without(SubscribersOf(m, c), x);
    var r := Subscribe(m, c, x);
    assert r[c] == old_ + [x];
    OccurrencesAppend(old_, [x], x);
    WithoutCounts(SubscribersOf(m, c), x, x);
    assert Occurrences([x], x) == 1 by { assert [x][1..] == []; }
    WithoutAppend(old_, [x], x);
    assert Without([x], x) == [] by { assert [x][1..] == []; }
    assert x !in old_;
    WithoutAbsent(old_, x);
  }

  /** After an unsubscribe, `x` no longer occurs under `c`, every other central keeps its
      count, the key (possibly with an empty list) stays, and an absent key stays absent. */
  lemma UnsubscribeSpec(m: SubscriptionMap, c: CharRef, x: CentralId, y: CentralId)
    ensures var r := Unsubscribe(m, c, x);
      && r.Keys == m.Keys
      && (forall k :: k in m && k != c ==> r[k] == m[k])
      && (c in m ==> x !in r[c])
      && (c in m && y != x ==> Occurrences(r[c], y) == Occurrences(m[c], y))
      && (c !in m ==> r == m)
  {
    if c in m {
      WithoutCounts(m[c], x, y);
    }
  }

  /** A subscribe followed by an unsubscribe of the same pair leaves `x` off `c`. */
  lemma SubscribeThenUnsubscribe(m: SubscriptionMap, c: CharRef, x: CentralId)
    ensures var r := Unsubscribe(Subscribe(m, c, x), c, x);
      c in r && x !in r[c] && Without(r[c], x) == Without(SubscribersOf(m, c), x)
  {
    var s := Subscribe(m, c, x);
    SubscribeSpec(m, c, x);
    assert c in s;
    var r := Unsubscribe(s, c, x);
    assert r[c] == Without(s[c], x);
    assert x !in r[c];
    WithoutAbsent(r[c], x);
  }

  /** Every characteristic of `services`, in order. */
  function AllCharacteristics(services: seq<Service>): (r: seq<Characteristic>)
    ensures forall c :: c in r <==>
      exists i :: 0 <= i < |services| && services[i].characteristics.Some? && c in services[i].characteristics.value
  {
    if services == [] then []
    else
      var init := services[..|services| - 1];
      var last := services[|services| - 1];
      assert forall i :: 0 <= i < |init| ==> init[i] == services[i];
      AllCharacteristics(init) + last.characteristics.GetOr([])
  }

  /** `c` is a mutable characteristic with handle `k`, so restoring it writes key `k`. */
  predicate Restores(c: Characteristic, k: CharRef) {
    c.mutable.Some? && c.ref == k
  }

  /** The map after one restored characteristic: a mutable one writes its platform-reported
      subscribers under its key, and with no reported list the key is removed (assigning nil
      through a dictionary subscript); any other characteristic changes nothing. */
  function RestoreOne(m: SubscriptionMap, c: Characteristic): SubscriptionMap {
    match c.mutable
    case None => m
    case Some(part) =>
      match part.subscribedCentrals
      case Some(centrals) => m[c.ref := centrals]
      case None => m - {c.ref}
  }

  /** The map after the restore walked `cs` in order. */
  function RestoreAll(m: SubscriptionMap, cs: seq<Characteristic>): SubscriptionMap {
    if cs == [] then m else RestoreOne(RestoreAll(m, cs[..|cs| - 1]), cs[|cs| - 1])
  }

  /** The restore introduces no key other than those of the restored mutable characteristics. */
  lemma {:induction false} RestoreAllKeys(m: SubscriptionMap, cs: seq<Characteristic>, k: CharRef)
    requires k !in m
    requires k in RestoreAll(m, cs)
    ensures exists j :: 0 <= j < |cs| && Restores(cs[j], k) && cs[j].mutable.value.subscribedCentrals.Some?
  {
    var init := cs[..|cs| - 1];
    var c := cs[|cs| - 1];
    if Restores(c, k) && c.mutable.value.subscribedCentrals.Some? {
    } else {
      assert k in RestoreAll(m, init);
      RestoreAllKeys(m, init, k);
      var j :| 0 <= j < |init| && Restores(init[j], k) && init[j].mutable.value.subscribedCentrals.Some?;
      assert init[j] == cs[j];
    }
  }

  /** A key no restored mutable characteristic has keeps its entry. */
  lemma {:induction false} RestoreAllUntouched(m: SubscriptionMap, cs: seq<Characteristic>, k: CharRef)
    requires k in m
    requires forall j :: 0 <= j < |cs| ==> !Restores(cs[j], k)
    ensures k in RestoreAll(m, cs) && RestoreAll(m, cs)[k] == m[k]
  {
    if cs != [] {
      var init := cs[..|cs| - 1];
      assert forall j :: 0 <= j < |init| ==> init[j] == cs[j];
      RestoreAllUntouched(m, init, k);
    }
  }

  /** A restored key is decided by the LAST mutable characteristic with that key: present with
      its subscribers when the platform reported a list, absent when it reported none. */
  lemma {:induction false} RestoreAllLastWins(m: SubscriptionMap, cs: seq<Characteristic>, k: CharRef, j: nat)
    requires j < |cs| && Restores(cs[j], k)
    requires forall j' :: j < j' < |cs| ==> !Restores(cs[j'], k)
    ensures cs[j].mutable.value.subscribedCentrals.Some? ==>
      k in RestoreAll(m, cs) && RestoreAll(m, cs)[k] == cs[j].mutable.value.subscribedCentrals.value
    ensures cs[j].mutable.value.subscribedCentrals.None? ==> k !in RestoreAll(m, cs)
  {
    var init := cs[..|cs| - 1];
    if j < |cs| - 1 {
      assert forall j' :: j < j' < |init| ==> init[j'] == cs[j'];
      assert init[j] == cs[j];
      RestoreAllLastWins(m, init, k, j);
    }
  }
}
