/** Requests and the per-peripheral side of the library: the Request object
    with its `timedOut` flag, the request registries as sets compared by
    `isEqual`, and the facade operations of a Peripheral (discover services,
    discover characteristics, read) together with the time-out action each one
    schedules. */
module Peripherals {
  import opened Identities
  import opened RequestKeys

  /** What a request asks for; the variant is the request's class. */
  datatype RequestKind =
    | ServiceDiscovering(serviceUuids: Option<seq<Uuid>>)
    | CharacteristicDiscovering(characteristicUuids: Option<seq<Uuid>>, service: Uuid)
    | Reading(characteristic: Uuid)
    | Connect(peripheral: Peripheral, abruption: Handler)
    | Disconnect(peripheral: Peripheral, completion: Handler)
    | CancelConnect(peripheral: Peripheral, completion: Handler)

  /** What a continuation was called with. */
  datatype Argument =
    | NilResponse                   // success(nil)
    | NoArgument                    // completion()
    | Failed(error: Option<Error>)  // failure(error), abruption(error)

  /** One invocation of a caller's continuation. */
  datatype Invocation = Invocation(handler: Handler, argument: Argument)

  /** A command issued to the radio stack. */
  datatype Command =
    | DiscoverServicesOf(serviceUuids: Option<seq<Uuid>>)
    | DiscoverCharacteristicsOf(characteristicUuids: Option<seq<Uuid>>, service: Uuid)
    | ReadValueOf(characteristic: Uuid)

  /** One pending operation. */
  class Request {
    const kind: RequestKind
    const success: Handler
    const failure: Handler
    /** Set when the request is made. The path that resolves the request clears
        it; the scheduled time-out action acts only while it is still set. */
    var timedOut: bool

    constructor (kind: RequestKind, success: Handler, failure: Handler)
      ensures this.kind == kind && this.success == success && this.failure == failure
      ensures timedOut
    {
      this.kind := kind;
      this.success := success;
      this.failure := failure;
      timedOut := true;
    }
  }

  /** `a.isEqual(b)`: requests of the three keyed classes are equal when they are
      of the same class and have the same key; requests of the other classes
      are compared as objects. */
  predicate IsEqual(a: Request, b: Request)
  {
    match a.kind
    case ServiceDiscovering(u) =>
      b.kind.ServiceDiscovering? && ServiceKey(u) == ServiceKey(b.kind.serviceUuids)
    case CharacteristicDiscovering(u, s) =>
      b.kind.CharacteristicDiscovering? && CharacteristicKey(u, s) == CharacteristicKey(b.kind.characteristicUuids, b.kind.service)
    case Reading(c) =>
      b.kind.Reading? && ReadKey(c) == ReadKey(b.kind.characteristic)
    case _ => a == b
  }

  lemma IsEqualIsEquivalence(a: Request, b: Request, c: Request)
    ensures IsEqual(a, a)
    ensures IsEqual(a, b) ==> IsEqual(b, a)
    ensures IsEqual(a, b) && IsEqual(b, c) ==> IsEqual(a, c)
  {
  }

  /** Two reads of the same characteristic are equal, whatever their
      continuations; a read is never equal to a request of another class. */
  lemma ReadRequestEquality(a: Request, b: Request)
    requires a.kind.Reading?
    ensures IsEqual(a, b) <==> b.kind.Reading? && b.kind.characteristic == a.kind.characteristic
  {
  }

  /** A service discovery is equal to exactly the service discoveries whose
      filters have the same key; never to a request of another class. */
  lemma ServiceRequestEquality(a: Request, b: Request)
    requires a.kind.ServiceDiscovering?
    ensures IsEqual(a, b) <==> b.kind.ServiceDiscovering? && ServiceKey(a.kind.serviceUuids) == ServiceKey(b.kind.serviceUuids)
    ensures (b.kind.ServiceDiscovering? && a.kind.serviceUuids.Some? && b.kind.serviceUuids.Some? &&
             multiset(a.kind.serviceUuids.value) == multiset(b.kind.serviceUuids.value)) ==> IsEqual(a, b)
    ensures b.kind.ServiceDiscovering? && a.kind.serviceUuids.None? && b.kind.serviceUuids == Some([]) ==> IsEqual(a, b)
  {
    if b.kind.ServiceDiscovering? && a.kind.serviceUuids.Some? && b.kind.serviceUuids.Some? &&
       multiset(a.kind.serviceUuids.value) == multiset(b.kind.serviceUuids.value) {
      ServiceKeyIgnoresOrder(a.kind.serviceUuids.value, b.kind.serviceUuids.value);
    }
  }

  /** A characteristic discovery is equal to exactly the characteristic
      discoveries with the same key; never to a request of another class. */
  lemma CharacteristicRequestEquality(a: Request, b: Request)
    requires a.kind.CharacteristicDiscovering?
    ensures IsEqual(a, b) <==> (b.kind.CharacteristicDiscovering? &&
      CharacteristicKey(a.kind.characteristicUuids, a.kind.service) == CharacteristicKey(b.kind.characteristicUuids, b.kind.service))
    ensures (b.kind.CharacteristicDiscovering? && a.kind.service == b.kind.service &&
             a.kind.characteristicUuids.Some? && b.kind.characteristicUuids.Some? &&
             multiset(a.kind.characteristicUuids.value) == multiset(b.kind.characteristicUuids.value)) ==> IsEqual(a, b)
  {
    if b.kind.CharacteristicDiscovering? && a.kind.service == b.kind.service &&
       a.kind.characteristicUuids.Some? && b.kind.characteristicUuids.Some? &&
       multiset(a.kind.characteristicUuids.value) == multiset(b.kind.characteristicUuids.value) {
      CharacteristicKeyIgnoresOrder(a.kind.service, a.kind.characteristicUuids.value, b.kind.characteristicUuids.value);
    }
  }

  /** A registry holds no two equal requests (the invariant a Set keeps). */
  predicate NoTwoEqual(registry: seq<Request>)
  {
    forall i, j :: 0 <= i < j < |registry| ==> !IsEqual(registry[i], registry[j])
  }

  /** `registry.insert(r)`: `r` takes the place of the request equal to it, if
      there is one, and is added otherwise. */
  function SetInsert(registry: seq<Request>, r: Request): seq<Request>
  {
    match FirstIndex(registry, x => IsEqual(x, r))
    case Some(i) => registry[i := r]
    case None => registry + [r]
  }

  /** After an insertion the registry holds `r`, keeps every request not equal
      to `r`, holds nothing else, and still holds no two equal requests. */
  lemma SetInsertSpec(registry: seq<Request>, r: Request)
    requires NoTwoEqual(registry)
    ensures r in SetInsert(registry, r)
    ensures forall x :: x in SetInsert(registry, r) ==> x == r || (x in registry && !IsEqual(x, r))
    ensures forall x :: x in registry && !IsEqual(x, r) ==> x in SetInsert(registry, r)
    ensures NoTwoEqual(SetInsert(registry, r))
  {
    var out := SetInsert(registry, r);
    match FirstIndex(registry, x => IsEqual(x, r))
    case Some(i) =>
      assert IsEqual(registry[i], r);
      assert out[i] == r;
      forall x | x in out ensures x == r || (x in registry && !IsEqual(x, r)) {
        var k :| 0 <= k < |out| && out[k] == x;
        if k != i {
          IsEqualIsEquivalence(registry[k], registry[i], r);
          IsEqualIsEquivalence(registry[i], registry[k], r);
        }
      }
      forall x | x in registry && !IsEqual(x, r) ensures x in out {
        var k :| 0 <= k < |registry| && registry[k] == x;
        assert out[k] == x;
      }
      forall p, q | 0 <= p < q < |out| ensures !IsEqual(out[p], out[q]) {
        if p == i {
          IsEqualIsEquivalence(r, registry[i], registry[q]);
          IsEqualIsEquivalence(registry[i], r, registry[q]);
        } else if q == i {
          IsEqualIsEquivalence(registry[p], r, registry[i]);
        }
      }
    case None =>
      forall p, q | 0 <= p < q < |out| ensures !IsEqual(out[p], out[q]) {
        if q == |registry| {
          assert out[p] == registry[p];
        }
      }
  }

  /** `registry.remove(r)`: removes the request equal to `r`, if any. */
  function SetRemove(registry: seq<Request>, r: Request): seq<Request>
  {
    if registry == [] then []
    else if IsEqual(registry[0], r) then SetRemove(registry[1..], r)
    else [registry[0]] + SetRemove(registry[1..], r)
  }

  /** After a removal the registry holds exactly the requests not equal to `r`. */
  lemma {:induction false} SetRemoveMembers(registry: seq<Request>, r: Request)
    ensures forall x :: x in SetRemove(registry, r) <==> x in registry && !IsEqual(x, r)
  {
    if registry != [] {
      SetRemoveMembers(registry[1..], r);
      assert registry == [registry[0]] + registry[1..];
    }
  }

  /** Every request left after a removal sits at some index of the original
      registry and is not equal to `r`. */
  lemma {:induction false} SetRemoveKeepsOnlyUnequal(registry: seq<Request>, r: Request)
    ensures forall k :: 0 <= k < |SetRemove(registry, r)| ==>
      exists m :: 0 <= m < |registry| && SetRemove(registry, r)[k] == registry[m] && !IsEqual(registry[m], r)
  {
    if registry != [] {
      SetRemoveKeepsOnlyUnequal(registry[1..], r);
      var rest := SetRemove(registry[1..], r);
      forall k | 0 <= k < |SetRemove(registry, r)|
        ensures exists m :: 0 <= m < |registry| && SetRemove(registry, r)[k] == registry[m] && !IsEqual(registry[m], r)
      {
        if IsEqual(registry[0], r) {
          var m :| 0 <= m < |registry[1..]| && rest[k] == registry[1..][m] && !IsEqual(registry[1..][m], r);
          assert registry[1..][m] == registry[m + 1];
        } else if k == 0 {
          assert SetRemove(registry, r)[0] == registry[0];
        } else {
          var m :| 0 <= m < |registry[1..]| && rest[k - 1] == registry[1..][m] && !IsEqual(registry[1..][m], r);
          assert registry[1..][m] == registry[m + 1];
        }
      }
    } else {
      assert SetRemove(registry, r) == [];
    }
  }

  /** Removal leaves a registry untouched when nothing in it is equal to `r`. */
  lemma {:induction false} SetRemoveNoMatch(registry: seq<Request>, r: Request)
    requires forall x :: x in registry ==> !IsEqual(x, r)
    ensures SetRemove(registry, r) == registry
  {
    if registry != [] {
      assert registry[0] in registry;
      SetRemoveNoMatch(registry[1..], r);
      assert registry == [registry[0]] + registry[1..];
    }
  }

  lemma NoTwoEqualTail(registry: seq<Request>)
    requires NoTwoEqual(registry) && registry != []
    ensures NoTwoEqual(registry[1..])
    ensures forall x :: x in registry[1..] ==> !IsEqual(registry[0], x)
  {
    var tail := registry[1..];
    forall i, j | 0 <= i < j < |tail| ensures !IsEqual(tail[i], tail[j]) {
      assert tail[i] == registry[i + 1] && tail[j] == registry[j + 1];
    }
    forall x | x in tail ensures !IsEqual(registry[0], x) {
      var k :| 0 <= k < |tail| && tail[k] == x;
      assert registry[k + 1] == x;
    }
  }

  /** Removal keeps a registry free of two equal requests. */
  lemma {:induction false} SetRemoveKeepsNoTwoEqual(registry: seq<Request>, r: Request)
    requires NoTwoEqual(registry)
    ensures NoTwoEqual(SetRemove(registry, r))
  {
    if registry != [] {
      var head, tail := registry[0], registry[1..];
      NoTwoEqualTail(registry);
      SetRemoveKeepsNoTwoEqual(tail, r);
      var rest := SetRemove(tail, r);
      SetRemoveKeepsOnlyUnequal(tail, r);
      if !IsEqual(head, r) {
        var out := [head] + rest;
        forall i, j | 0 <= i < j < |out| ensures !IsEqual(out[i], out[j]) {
          if i == 0 {
            assert out[j] == rest[j - 1] && rest[j - 1] in rest;
          } else {
            assert out[i] == rest[i - 1] && out[j] == rest[j - 1];
          }
        }
      }
    }
  }

  /** Removal works element by element, so it distributes over concatenation. */
  lemma {:induction false} SetRemoveAppend(a: seq<Request>, b: seq<Request>, r: Request)
    ensures SetRemove(a + b, r) == SetRemove(a, r) + SetRemove(b, r)
  {
    if a == [] {
      assert a + b == b;
    } else {
      assert (a + b)[0] == a[0] && (a + b)[1..] == a[1..] + b;
      SetRemoveAppend(a[1..], b, r);
    }
  }

  /** A request that times out leaves its registry as if neither it nor the
      request it replaced had been there: inserting `r` and then removing it
      is the same as removing the request equal to `r`. */
  lemma InsertThenRemove(registry: seq<Request>, r: Request)
    ensures SetRemove(SetInsert(registry, r), r) == SetRemove(registry, r)
  {
    IsEqualIsEquivalence(r, r, r);
    assert SetRemove([r], r) == [];
    match FirstIndex(registry, x => IsEqual(x, r))
    case Some(i) =>
      var before, after := registry[..i], registry[i + 1..];
      assert registry == before + [registry[i]] + after;
      assert SetInsert(registry, r) == before + [r] + after;
      assert SetRemove([registry[i]], r) == [];
      SetRemoveAppend(before + [r], after, r);
      SetRemoveAppend(before, [r], r);
      SetRemoveAppend(before + [registry[i]], after, r);
      SetRemoveAppend(before, [registry[i]], r);
    case None =>
      SetRemoveAppend(registry, [r], r);
  }

  /** Whether `found` holds an attribute with UUID string `s`: the lookup
      `serviceWith(UUIDString:)` / `characteristicWith(UUIDString:)` makes. */
  predicate Found(found: seq<Uuid>, s: string)
  {
    exists u :: u in found && UuidString(u) == s
  }

  /** Looks up every wanted string in turn and stops at the first one missing. */
  method EveryStringFound(found: seq<Uuid>, wanted: seq<string>) returns (r: bool)
    ensures r <==> forall s :: s in wanted ==> Found(found, s)
  {
    for i := 0 to |wanted|
      invariant forall j :: 0 <= j < i ==> Found(found, wanted[j])
    {
      if !Found(found, wanted[i]) {
        return false;
      }
    }
    return true;
  }

  /** Every UUID's string is found exactly when every UUID is. */
  lemma EveryUuidFound(found: seq<Uuid>, uuids: seq<Uuid>)
    ensures (forall s :: s in UuidStrings(uuids) ==> Found(found, s)) <==>
            (forall u :: u in uuids ==> Found(found, UuidString(u)))
  {
    if forall u :: u in uuids ==> Found(found, UuidString(u)) {
      forall s | s in UuidStrings(uuids) ensures Found(found, s) {
        var k :| 0 <= k < |uuids| && UuidStrings(uuids)[k] == s;
        assert uuids[k] in uuids;
      }
    }
    if forall s :: s in UuidStrings(uuids) ==> Found(found, s) {
      forall u | u in uuids ensures Found(found, UuidString(u)) {
        var k :| 0 <= k < |uuids| && uuids[k] == u;
        assert UuidStrings(uuids)[k] in UuidStrings(uuids);
      }
    }
  }

  /** A BLE peripheral as the library wraps it: the radio stack's peripheral
      object (`core`) and the registries of the operations pending on it. */
  class Peripheral {
    const core: CoreId
    var serviceDiscoveringRequests: seq<Request>
    var characteristicDiscoveringRequests: seq<Request>
    var readRequests: seq<Request>
    /** The continuations called so far, in order. */
    var callbacks: seq<Invocation>
    /** The commands issued to the radio stack so far, in order. */
    ghost var commands: seq<Command>

    ghost predicate Valid()
      reads this
    {
      && (forall r :: r in serviceDiscoveringRequests ==> r.kind.ServiceDiscovering?)
      && (forall r :: r in characteristicDiscoveringRequests ==> r.kind.CharacteristicDiscovering?)
      && (forall r :: r in readRequests ==> r.kind.Reading?)
      && NoTwoEqual(serviceDiscoveringRequests)
      && NoTwoEqual(characteristicDiscoveringRequests)
      && NoTwoEqual(readRequests)
    }

    constructor (core: CoreId)
      ensures this.core == core && Valid()
      ensures serviceDiscoveringRequests == characteristicDiscoveringRequests == readRequests == []
      ensures callbacks == [] && commands == []
    {
      this.core := core;
      serviceDiscoveringRequests, characteristicDiscoveringRequests, readRequests := [], [], [];
      callbacks := [];
      commands := [];
    }

    /** `discover(serviceUUIDs:success:failure:)`. `availabilityError` is what
        the availability check returned. The new request is returned so that
        its time-out action can be run later. */
    method DiscoverServices(serviceUuids: Option<seq<Uuid>>, success: Handler, failure: Handler, availabilityError: Option<Error>)
      returns (req: Request?)
      requires Valid()
      modifies this
      ensures Valid()
      ensures characteristicDiscoveringRequests == old(characteristicDiscoveringRequests)
      ensures readRequests == old(readRequests)
      ensures availabilityError.Some? ==>
        && req == null
        && callbacks == old(callbacks) + [Invocation(failure, Failed(availabilityError))]
        && serviceDiscoveringRequests == old(serviceDiscoveringRequests)
        && commands == old(commands)
      ensures availabilityError.None? ==>
        && req != null && fresh(req) && req.timedOut
        && req.kind == ServiceDiscovering(serviceUuids) && req.success == success && req.failure == failure
        && serviceDiscoveringRequests == SetInsert(old(serviceDiscoveringRequests), req)
        && req in serviceDiscoveringRequests
        && (forall x :: x in old(serviceDiscoveringRequests) && !IsEqual(x, req) ==> x in serviceDiscoveringRequests)
        && commands == old(commands) + [DiscoverServicesOf(serviceUuids)]
        && callbacks == old(callbacks)
    {
      if availabilityError.Some? {
        callbacks := callbacks + [Invocation(failure, Failed(availabilityError))];
        return null;
      }
      req := new Request(ServiceDiscovering(serviceUuids), success, failure);
      SetInsertSpec(serviceDiscoveringRequests, req);
      serviceDiscoveringRequests := SetInsert(serviceDiscoveringRequests, req);
      commands := commands + [DiscoverServicesOf(serviceUuids)];
    }

    /** The time-out action `discover(serviceUUIDs:…)` schedules. */
    method ServiceDiscoveryTimeout(req: Request)
      requires Valid() && req.kind.ServiceDiscovering?
      modifies this
      ensures Valid()
      ensures characteristicDiscoveringRequests == old(characteristicDiscoveringRequests)
      ensures readRequests == old(readRequests) && commands == old(commands)
      ensures req.timedOut ==>
        && callbacks == old(callbacks) + [Invocation(req.failure, Failed(Some(TimedOut)))]
        && serviceDiscoveringRequests == SetRemove(old(serviceDiscoveringRequests), req)
        && (forall x :: x in serviceDiscoveringRequests ==> !IsEqual(x, req))
      ensures !req.timedOut ==> unchanged(this)
    {
      if req.timedOut {
        callbacks := callbacks + [Invocation(req.failure, Failed(Some(TimedOut)))];
        SetRemoveMembers(serviceDiscoveringRequests, req);
        SetRemoveKeepsNoTwoEqual(serviceDiscoveringRequests, req);
        serviceDiscoveringRequests := SetRemove(serviceDiscoveringRequests, req);
      }
    }

    /** `discover(characteristicUUIDs:ofService:success:failure:)`. */
    method DiscoverCharacteristics(characteristicUuids: Option<seq<Uuid>>, service: Uuid, success: Handler, failure: Handler,
                                   availabilityError: Option<Error>)
      returns (req: Request?)
      requires Valid()
      modifies this
      ensures Valid()
      ensures serviceDiscoveringRequests == old(serviceDiscoveringRequests)
      ensures readRequests == old(readRequests)
      ensures availabilityError.Some? ==>
        && req == null
        && callbacks == old(callbacks) + [Invocation(failure, Failed(availabilityError))]
        && characteristicDiscoveringRequests == old(characteristicDiscoveringRequests)
        && commands == old(commands)
      ensures availabilityError.None? ==>
        && req != null && fresh(req) && req.timedOut
        && req.kind == CharacteristicDiscovering(characteristicUuids, service) && req.success == success && req.failure == failure
        && characteristicDiscoveringRequests == SetInsert(old(characteristicDiscoveringRequests), req)
        && req in characteristicDiscoveringRequests
        && (forall x :: x in old(characteristicDiscoveringRequests) && !IsEqual(x, req) ==> x in characteristicDiscoveringRequests)
        && commands == old(commands) + [DiscoverCharacteristicsOf(characteristicUuids, service)]
        && callbacks == old(callbacks)
    {
      if availabilityError.Some? {
        callbacks := callbacks + [Invocation(failure, Failed(availabilityError))];
        return null;
      }
      req := new Request(CharacteristicDiscovering(characteristicUuids, service), success, failure);
      SetInsertSpec(characteristicDiscoveringRequests, req);
      characteristicDiscoveringRequests := SetInsert(characteristicDiscoveringRequests, req);
      commands := commands + [DiscoverCharacteristicsOf(characteristicUuids, service)];
    }

    /** The time-out action `discover(characteristicUUIDs:…)` schedules. */
    method CharacteristicDiscoveryTimeout(req: Request)
      requires Valid() && req.kind.CharacteristicDiscovering?
      modifies this
      ensures Valid()
      ensures serviceDiscoveringRequests == old(serviceDiscoveringRequests)
      ensures readRequests == old(readRequests) && commands == old(commands)
      ensures req.timedOut ==>
        && callbacks == old(callbacks) + [Invocation(req.failure, Failed(Some(TimedOut)))]
        && characteristicDiscoveringRequests == SetRemove(old(characteristicDiscoveringRequests), req)
        && (forall x :: x in characteristicDiscoveringRequests ==> !IsEqual(x, req))
      ensures !req.timedOut ==> unchanged(this)
    {
      if req.timedOut {
        callbacks := callbacks + [Invocation(req.failure, Failed(Some(TimedOut)))];
        SetRemoveMembers(characteristicDiscoveringRequests, req);
        SetRemoveKeepsNoTwoEqual(characteristicDiscoveringRequests, req);
        characteristicDiscoveringRequests := SetRemove(characteristicDiscoveringRequests, req);
      }
    }

    /** `read(characteristic:success:failure:)`. */
    method Read(characteristic: Uuid, success: Handler, failure: Handler, availabilityError: Option<Error>)
      returns (req: Request?)
      requires Valid()
      modifies this
      ensures Valid()
      ensures serviceDiscoveringRequests == old(serviceDiscoveringRequests)
      ensures characteristicDiscoveringRequests == old(characteristicDiscoveringRequests)
      ensures availabilityError.Some? ==>
        && req == null
        && callbacks == old(callbacks) + [Invocation(failure, Failed(availabilityError))]
        && readRequests == old(readRequests)
        && commands == old(commands)
      ensures availabilityError.None? ==>
        && req != null && fresh(req) && req.timedOut
        && req.kind == Reading(characteristic) && req.success == success && req.failure == failure
        && readRequests == SetInsert(old(readRequests), req)
        && req in readRequests
        && (forall x :: x in readRequests && x != req ==> x in old(readRequests) && x.kind.characteristic != characteristic)
        && (forall x :: x in old(readRequests) && x.kind.characteristic != characteristic ==> x in readRequests)
        && commands == old(commands) + [ReadValueOf(characteristic)]
        && callbacks == old(callbacks)
    {
      if availabilityError.Some? {
        callbacks := callbacks + [Invocation(failure, Failed(availabilityError))];
        return null;
      }
      req := new Request(Reading(characteristic), success, failure);
      SetInsertSpec(readRequests, req);
      readRequests := SetInsert(readRequests, req);
      commands := commands + [ReadValueOf(characteristic)];
    }

    /** The time-out action `read(…)` schedules. */
    method ReadTimeout(req: Request)
      requires Valid() && req.kind.Reading?
      modifies this
      ensures Valid()
      ensures serviceDiscoveringRequests == old(serviceDiscoveringRequests)
      ensures characteristicDiscoveringRequests == old(characteristicDiscoveringRequests)
      ensures commands == old(commands)
      ensures req.timedOut ==>
        && callbacks == old(callbacks) + [Invocation(req.failure, Failed(Some(TimedOut)))]
        && readRequests == SetRemove(old(readRequests), req)
        && (forall x :: x in readRequests <==> x in old(readRequests) && x.kind.characteristic != req.kind.characteristic)
      ensures !req.timedOut ==> unchanged(this)
    {
      if req.timedOut {
        callbacks := callbacks + [Invocation(req.failure, Failed(Some(TimedOut)))];
        SetRemoveMembers(readRequests, req);
        SetRemoveKeepsNoTwoEqual(readRequests, req);
        readRequests := SetRemove(readRequests, req);
      }
    }

    /** `areServicesAvailable(uuids:)`; `coreServices` are the services the
        radio stack has reported for `core`. */
    method AreServicesAvailable(coreServices: seq<Uuid>, uuids: seq<Uuid>) returns (r: bool)
      ensures r <==> forall u :: u in uuids ==> Found(coreServices, UuidString(u))
    {
      EveryUuidFound(coreServices, uuids);
      r := EveryStringFound(coreServices, UuidStrings(uuids));
    }

    /** `areServicesAvailable(uuidStrings:)`. */
    method AreServicesAvailableByString(coreServices: seq<Uuid>, uuidStrings: seq<string>) returns (r: bool)
      ensures r <==> forall s :: s in uuidStrings ==> Found(coreServices, s)
    {
      r := EveryStringFound(coreServices, uuidStrings);
    }

    /** `areCharacteristicsAvailable(uuids:)`; `coreCharacteristics` are the
        characteristics the radio stack has reported for `core`. */
    method AreCharacteristicsAvailable(coreCharacteristics: seq<Uuid>, uuids: seq<Uuid>) returns (r: bool)
      ensures r <==> forall u :: u in uuids ==> Found(coreCharacteristics, UuidString(u))
    {
      EveryUuidFound(coreCharacteristics, uuids);
      r := EveryStringFound(coreCharacteristics, UuidStrings(uuids));
    }

    /** `areCharacteristicsAvailable(uuidStrings:)`. */
    method AreCharacteristicsAvailableByString(coreCharacteristics: seq<Uuid>, uuidStrings: seq<string>) returns (r: bool)
      ensures r <==> forall s :: s in uuidStrings ==> Found(coreCharacteristics, s)
    {
      r := EveryStringFound(coreCharacteristics, uuidStrings);
    }
  }
}
