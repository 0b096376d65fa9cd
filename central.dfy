/** The central manager's event handlers: how each radio event (peripheral
    discovered, connected, failed to connect, disconnected) is matched to the
    first pending request for that peripheral, which continuation it calls, and
    how the request sets, the cache of wrapped peripherals and the sessions
    change. Each handler's main-queue block, together with the blocks it
    dispatches in turn, is one atomic step. */
module CentralDelegate {
  import opened Identities
  import opened Peripherals
  import opened Advertisements

  /** `includes(S)`: every element of `s` is in `self`. */
  function Includes<T(==)>(self: seq<T>, s: seq<T>): (r: bool)
    ensures r <==> forall x :: x in s ==> x in self
  {
    if s == [] then true
    else s[0] in self && Includes(self, s[1..])
  }

  /** Some element of `s` is in `self`. */
  function AnyIn<T(==)>(self: seq<T>, s: seq<T>): (r: bool)
    ensures r <==> exists x :: x in s && x in self
  {
    if s == [] then false
    else s[0] in self || AnyIn(self, s[1..])
  }

  /** `overlapsWith(S)`: `s` is present and one of its elements is in `self`. */
  function OverlapsWith<T(==)>(self: seq<T>, s: Option<seq<T>>): (r: bool)
    ensures r <==> s.Some? && exists x :: x in s.value && x in self
  {
    match s
    case None => false
    case Some(xs) => AnyIn(self, xs)
  }

  /** A scan request: its filter, and the advertisements it has collected. */
  class ScanRequest {
    const advertisingUuids: Option<seq<Uuid>>
    var available: seq<Advertisement>

    constructor (advertisingUuids: Option<seq<Uuid>>)
      ensures this.advertisingUuids == advertisingUuids && available == []
    {
      this.advertisingUuids := advertisingUuids;
      available := [];
    }
  }

  /** A scan request with filter `filter` takes an advertisement of `uuids`
      when it scans for all peripherals or its filter overlaps `uuids`. */
  predicate Accepts(filter: Option<seq<Uuid>>, uuids: Option<seq<Uuid>>)
  {
    filter.None? || OverlapsWith(filter.value, uuids)
  }

  /** The scan request an advertisement of `uuids` goes to: the first, in
      iteration order, that takes it. */
  function ScanTarget(scanRequests: seq<ScanRequest>, uuids: Option<seq<Uuid>>): (r: Option<nat>)
    ensures r.Some? ==> r.value < |scanRequests| && Accepts(scanRequests[r.value].advertisingUuids, uuids)
    ensures r.Some? ==> forall j :: 0 <= j < r.value ==> !Accepts(scanRequests[j].advertisingUuids, uuids)
    ensures r.None? <==> forall j :: 0 <= j < |scanRequests| ==> !Accepts(scanRequests[j].advertisingUuids, uuids)
  {
    FirstIndex(scanRequests, (s: ScanRequest) => Accepts(s.advertisingUuids, uuids))
  }

  /** An advertisement without service UUIDs, or with an empty list of them,
      goes to the first scan request for all peripherals and to no filtered
      one. */
  lemma NoUuidsGoToUnfilteredScan(scanRequests: seq<ScanRequest>)
    ensures forall j :: 0 <= j < |scanRequests| && scanRequests[j].advertisingUuids.Some? ==>
      !Accepts(scanRequests[j].advertisingUuids, None)
    ensures ScanTarget(scanRequests, None).Some? ==>
      && scanRequests[ScanTarget(scanRequests, None).value].advertisingUuids.None?
      && forall j :: 0 <= j < ScanTarget(scanRequests, None).value ==> scanRequests[j].advertisingUuids.Some?
    ensures ScanTarget(scanRequests, None).None? <==>
      forall j :: 0 <= j < |scanRequests| ==> scanRequests[j].advertisingUuids.Some?
    ensures ScanTarget(scanRequests, Some([])) == ScanTarget(scanRequests, None)
  {
  }

  /** `r` is a request aimed at the peripheral whose core is `core`, compared
      as `req.peripheral.core == peripheral`. */
  predicate Targets(r: Request, core: CoreId)
  {
    (r.kind.Connect? || r.kind.Disconnect? || r.kind.CancelConnect?) && r.kind.peripheral.core == core
  }

  /** The first request of `requests` aimed at `core`. */
  function FirstTargeting(requests: seq<Request>, core: CoreId): (r: Option<nat>)
    ensures r.Some? ==> r.value < |requests| && Targets(requests[r.value], core)
    ensures r.Some? ==> forall j :: 0 <= j < r.value ==> !Targets(requests[j], core)
    ensures r.None? <==> forall j :: 0 <= j < |requests| ==> !Targets(requests[j], core)
  {
    FirstIndex(requests, (x: Request) => Targets(x, core))
  }

  /** The two objects the failed-to-connect lookup compares: the radio stack's
      peripheral object and a library wrapper. */
  datatype ObjectRef = CoreObject(core: CoreId) | WrapperObject(wrapper: Peripheral)

  /** The failed-to-connect lookup as written: the request's wrapper is compared
      with the radio stack's peripheral object itself. */
  function FirstTargetingAsWritten(requests: seq<Request>, core: CoreId): Option<nat>
  {
    FirstIndex(requests, (x: Request) => x.kind.Connect? && WrapperObject(x.kind.peripheral) == CoreObject(core))
  }

  /** The lookup as written matches no request, while the corrected one finds
      every request aimed at the peripheral. */
  lemma FailLookupAsWrittenNeverMatches(requests: seq<Request>, core: CoreId)
    ensures FirstTargetingAsWritten(requests, core).None?
    ensures (exists j :: 0 <= j < |requests| && Targets(requests[j], core)) ==> FirstTargeting(requests, core).Some?
  {
    var r := FirstTargetingAsWritten(requests, core);
    if r.Some? {
      assert false;
    }
  }

  /** A connect request for the peripheral with core `core` is ignored by the
      failure path as written, but found by the corrected lookup. */
  lemma FailLookupCounterexample(req: Request, core: CoreId)
    requires req.kind.Connect? && req.kind.peripheral.core == core
    ensures FirstTargetingAsWritten([req], core) == None
    ensures FirstTargeting([req], core) == Some(0)
  {
    FailLookupAsWrittenNeverMatches([req], core);
  }

  /** `coreCatched(core)`: some cached wrapper has that core. */
  function CoreCatched(availables: seq<Peripheral>, core: CoreId): (r: bool)
    ensures r <==> exists i :: 0 <= i < |availables| && availables[i].core == core
  {
    FirstIndex(availables, (p: Peripheral) => p.core == core).Some?
  }

  /** `peripheralFor(core)`: the first cached wrapper with that core. */
  function PeripheralFor(availables: seq<Peripheral>, core: CoreId): (r: Option<Peripheral>)
    ensures r.Some? ==> r.value in availables && r.value.core == core
    ensures r.None? <==> !CoreCatched(availables, core)
  {
    match FirstIndex(availables, (p: Peripheral) => p.core == core)
    case Some(i) => Some(availables[i])
    case None => None
  }

  /** No two cached wrappers share a core. */
  predicate DistinctCores(availables: seq<Peripheral>)
  {
    forall i, j :: 0 <= i < j < |availables| ==> availables[i].core != availables[j].core
  }

  /** With distinct cores, the wrapper found for a core is the one cached for it. */
  lemma PeripheralForFindsCached(availables: seq<Peripheral>, p: Peripheral)
    requires DistinctCores(availables) && p in availables
    ensures PeripheralFor(availables, p.core) == Some(p)
  {
    var q := PeripheralFor(availables, p.core).value;
    var i :| 0 <= i < |availables| && availables[i] == p;
    var k :| 0 <= k < |availables| && availables[k] == q;
    assert i == k;
  }

  /** A session: a connected peripheral and the continuation to call when the
      connection breaks. */
  datatype Session = Session(peripheral: Peripheral, abruption: Handler)

  /** The session of `p`: the first one holding that wrapper. */
  function SessionFor(sessions: seq<Session>, p: Peripheral): (r: Option<nat>)
    ensures r.Some? ==> r.value < |sessions| && sessions[r.value].peripheral == p
    ensures r.Some? ==> forall j :: 0 <= j < r.value ==> sessions[j].peripheral != p
    ensures r.None? <==> forall j :: 0 <= j < |sessions| ==> sessions[j].peripheral != p
  {
    FirstIndex(sessions, (s: Session) => s.peripheral == p)
  }

  /** The session that an event for `core` concerns: the first session of the
      cached wrapper with that core, if the core is cached and its wrapper has
      a session. */
  function SessionOf(availables: seq<Peripheral>, sessions: seq<Session>, core: CoreId): (r: Option<nat>)
    ensures r.Some? ==> r.value < |sessions| && CoreCatched(availables, core) && sessions[r.value].peripheral.core == core
    ensures r.Some? ==> sessions[r.value].peripheral in availables
    ensures r.Some? ==> PeripheralFor(availables, core) == Some(sessions[r.value].peripheral)
    ensures r.Some? ==> forall j :: 0 <= j < r.value ==> sessions[j].peripheral != sessions[r.value].peripheral
    ensures DistinctCores(availables) ==>
      (r.None? <==> forall j :: 0 <= j < |sessions| ==>
                      !(sessions[j].peripheral in availables && sessions[j].peripheral.core == core))
  {
    match PeripheralFor(availables, core)
    case None => None
    case Some(p) => SessionFor(sessions, p)
  }

  /** The library object: the caches and request sets the event handlers use. */
  class Cusp {
    var availables: seq<Peripheral>
    var scanRequests: seq<ScanRequest>
    var connectRequests: seq<Request>
    var disconnectRequests: seq<Request>
    var cancelConnectRequests: seq<Request>
    var sessions: seq<Session>
    /** The continuations called so far, in order. */
    var callbacks: seq<Invocation>

    ghost predicate Valid()
      reads this
    {
      && DistinctCores(availables)
      && (forall i, j :: 0 <= i < j < |scanRequests| ==> scanRequests[i] != scanRequests[j])
      && (forall r :: r in connectRequests ==> r.kind.Connect?)
      && (forall r :: r in disconnectRequests ==> r.kind.Disconnect?)
      && (forall r :: r in cancelConnectRequests ==> r.kind.CancelConnect?)
    }

    constructor ()
      ensures Valid()
      ensures availables == [] && scanRequests == [] && sessions == [] && callbacks == []
      ensures connectRequests == [] && disconnectRequests == [] && cancelConnectRequests == []
    {
      availables, scanRequests, sessions, callbacks := [], [], [], [];
      connectRequests, disconnectRequests, cancelConnectRequests := [], [], [];
    }

    /** `didDiscoverPeripheral`, when no custom peripheral class is
        registered: a core seen before is ignored; a new one is wrapped, and
        the wrapper is handed on to `dealWithFoundPeripherals`. */
    method DidDiscoverPeripheral(core: CoreId, advertisementData: map<string, AdValue>, rssi: int) returns (p: Peripheral?)
      requires Valid()
      modifies this, scanRequests
      ensures Valid()
      ensures CoreCatched(old(availables), core) ==>
        && p == null && unchanged(this)
        && forall j :: 0 <= j < |scanRequests| ==> unchanged(scanRequests[j])
      ensures !CoreCatched(old(availables), core) ==>
        && p != null && fresh(p) && p.core == core && p.Valid()
        && availables == old(availables) + [p]
        && scanRequests == old(scanRequests)
        && connectRequests == old(connectRequests) && disconnectRequests == old(disconnectRequests)
        && cancelConnectRequests == old(cancelConnectRequests)
        && sessions == old(sessions) && callbacks == old(callbacks)
        && var ad := Advertisement(p, advertisementData, rssi);
           forall j :: 0 <= j < |scanRequests| ==>
             scanRequests[j].available ==
               if ScanTarget(scanRequests, AdvertisingUuids(ad)) == Some(j)
               then old(scanRequests[j].available) + [ad]
               else old(scanRequests[j].available)
    {
      if CoreCatched(availables, core) {
        return null;
      }
      p := new Peripheral(core);
      DealWithFoundPeripheral(p, advertisementData, rssi);
    }

    /** `dealWithFoundPeripherals`: caches the wrapper and puts its
        advertisement into the first scan request that takes it. */
    method DealWithFoundPeripheral(p: Peripheral, advertisementData: map<string, AdValue>, rssi: int)
      requires Valid() && !CoreCatched(availables, p.core)
      requires forall j, x :: 0 <= j < |scanRequests| && x in scanRequests[j].available ==> x.peripheral != p
      modifies this, scanRequests
      ensures Valid()
      ensures availables == old(availables) + [p]
      ensures scanRequests == old(scanRequests)
      ensures connectRequests == old(connectRequests) && disconnectRequests == old(disconnectRequests)
      ensures cancelConnectRequests == old(cancelConnectRequests)
      ensures sessions == old(sessions) && callbacks == old(callbacks)
      ensures var ad := Advertisement(p, advertisementData, rssi);
        forall j :: 0 <= j < |scanRequests| ==>
          scanRequests[j].available ==
            if ScanTarget(scanRequests, AdvertisingUuids(ad)) == Some(j)
            then old(scanRequests[j].available) + [ad]
            else old(scanRequests[j].available)
    {
      availables := availables + [p];
      var ad := Advertisement(p, advertisementData, rssi);
      var uuids := AdvertisingUuids(ad);
      var i := 0;
      while i < |scanRequests|
        invariant 0 <= i <= |scanRequests|
        invariant forall j :: 0 <= j < i ==> !Accepts(scanRequests[j].advertisingUuids, uuids)
        invariant forall j :: 0 <= j < |scanRequests| ==> unchanged(scanRequests[j])
      {
        var req := scanRequests[i];
        if req.advertisingUuids == None || OverlapsWith(req.advertisingUuids.value, uuids) {
          InsertNewPeripheral(req.available, ad);
          req.available := InsertAdvertisement(req.available, ad);
          assert ScanTarget(scanRequests, uuids) == Some(i);
          assert forall j :: 0 <= j < |scanRequests| && j != i ==> scanRequests[j] != req;
          return;
        }
        i := i + 1;
      }
    }

    /** `didConnectPeripheral`: the first connect request for the peripheral is
        resolved; its `timedOut` is cleared, `success(nil)` is called, the
        cached wrapper (if any) gets a session carrying the request's
        `abruption`, and the request is removed. */
    method DidConnectPeripheral(core: CoreId)
      requires Valid()
      modifies this, connectRequests
      ensures Valid()
      ensures availables == old(availables) && scanRequests == old(scanRequests)
      ensures disconnectRequests == old(disconnectRequests) && cancelConnectRequests == old(cancelConnectRequests)
      ensures FirstTargeting(old(connectRequests), core).None? ==>
        && unchanged(this)
        && forall j :: 0 <= j < |connectRequests| ==> unchanged(connectRequests[j])
      ensures FirstTargeting(old(connectRequests), core).Some? ==>
        var req := old(connectRequests)[FirstTargeting(old(connectRequests), core).value];
        && !req.timedOut
        && (forall x :: x in old(connectRequests) && x != req ==> x.timedOut == old(x.timedOut))
        && callbacks == old(callbacks) + [Invocation(req.success, NilResponse)]
        && sessions == old(sessions) + (match PeripheralFor(availables, core)
                                        case Some(p) => [Session(p, req.kind.abruption)]
                                        case None => [])
        && connectRequests == SetRemove(old(connectRequests), req)
        && req !in connectRequests
    {
      var target := FirstTargeting(connectRequests, core);
      if target.None? {
        return;
      }
      var req := connectRequests[target.value];
      req.timedOut := false;
      callbacks := callbacks + [Invocation(req.success, NilResponse)];
      match PeripheralFor(availables, core) {
        case Some(p) =>
          sessions := sessions + [Session(p, req.kind.abruption)];
        case None =>
      }
      SetRemoveMembers(connectRequests, req);
      connectRequests := SetRemove(connectRequests, req);
    }

    /** `didFailToConnectPeripheral` with the lookup the connect path uses: the
        first connect request for the peripheral is resolved; its `timedOut`
        is cleared, `failure(error)` is called, the request is removed, and no
        session is made. */
    method DidFailToConnectPeripheral(core: CoreId, error: Option<Error>)
      requires Valid()
      modifies this, connectRequests
      ensures Valid()
      ensures availables == old(availables) && scanRequests == old(scanRequests) && sessions == old(sessions)
      ensures disconnectRequests == old(disconnectRequests) && cancelConnectRequests == old(cancelConnectRequests)
      ensures FirstTargeting(old(connectRequests), core).None? ==>
        && unchanged(this)
        && forall j :: 0 <= j < |connectRequests| ==> unchanged(connectRequests[j])
      ensures FirstTargeting(old(connectRequests), core).Some? ==>
        var req := old(connectRequests)[FirstTargeting(old(connectRequests), core).value];
        && !req.timedOut
        && (forall x :: x in old(connectRequests) && x != req ==> x.timedOut == old(x.timedOut))
        && callbacks == old(callbacks) + [Invocation(req.failure, Failed(error))]
        && connectRequests == SetRemove(old(connectRequests), req)
        && req !in connectRequests
    {
      var target := FirstTargeting(connectRequests, core);
      if target.None? {
        return;
      }
      var req := connectRequests[target.value];
      req.timedOut := false;
      callbacks := callbacks + [Invocation(req.failure, Failed(error))];
      SetRemoveMembers(connectRequests, req);
      connectRequests := SetRemove(connectRequests, req);
    }

    /** `didDisconnectPeripheral`. With an error, the peripheral's session (if
        any) has its `abruption(error)` called and is removed. Without one, the
        first disconnect request for the peripheral wins: its `completion()` is
        called, it is removed, and so is the peripheral's session; its
        `timedOut` flag is left as it is. Failing that, the first
        cancel-connect request for the peripheral is completed and removed. */
    method DidDisconnectPeripheral(core: CoreId, error: Option<Error>)
      requires Valid()
      modifies this
      ensures Valid()
      ensures availables == old(availables) && scanRequests == old(scanRequests)
      ensures connectRequests == old(connectRequests)
      ensures error.Some? ==>
        && disconnectRequests == old(disconnectRequests)
        && cancelConnectRequests == old(cancelConnectRequests)
        && match SessionOf(availables, old(sessions), core)
           case None => unchanged(this)
           case Some(k) =>
             && callbacks == old(callbacks) + [Invocation(old(sessions)[k].abruption, Failed(error))]
             && sessions == RemoveAt(old(sessions), k)
      ensures error.None? && FirstTargeting(old(disconnectRequests), core).Some? ==>
        var req := old(disconnectRequests)[FirstTargeting(old(disconnectRequests), core).value];
        && callbacks == old(callbacks) + [Invocation(req.kind.completion, NoArgument)]
        && disconnectRequests == SetRemove(old(disconnectRequests), req)
        && req !in disconnectRequests
        && cancelConnectRequests == old(cancelConnectRequests)
        && sessions == match SessionOf(availables, old(sessions), core)
                       case None => old(sessions)
                       case Some(k) => RemoveAt(old(sessions), k)
      ensures error.None? && FirstTargeting(old(disconnectRequests), core).None? ==>
        && disconnectRequests == old(disconnectRequests)
        && sessions == old(sessions)
        && match FirstTargeting(old(cancelConnectRequests), core)
           case None => unchanged(this)
           case Some(i) =>
             var req := old(cancelConnectRequests)[i];
             && callbacks == old(callbacks) + [Invocation(req.kind.completion, NoArgument)]
             && cancelConnectRequests == SetRemove(old(cancelConnectRequests), req)
             && req !in cancelConnectRequests
    {
      if error.Some? {
        match SessionOf(availables, sessions, core) {
          case None =>
          case Some(k) =>
            callbacks := callbacks + [Invocation(sessions[k].abruption, Failed(error))];
            sessions := RemoveAt(sessions, k);
        }
        return;
      }
      var disconnect := FirstTargeting(disconnectRequests, core);
      if disconnect.Some? {
        var req := disconnectRequests[disconnect.value];
        callbacks := callbacks + [Invocation(req.kind.completion, NoArgument)];
        SetRemoveMembers(disconnectRequests, req);
        disconnectRequests := SetRemove(disconnectRequests, req);
        match SessionOf(availables, sessions, core) {
          case None =>
          case Some(k) =>
            sessions := RemoveAt(sessions, k);
        }
        return;
      }
      var cancel := FirstTargeting(cancelConnectRequests, core);
      if cancel.Some? {
        var req := cancelConnectRequests[cancel.value];
        callbacks := callbacks + [Invocation(req.kind.completion, NoArgument)];
        SetRemoveMembers(cancelConnectRequests, req);
        cancelConnectRequests := SetRemove(cancelConnectRequests, req);
      }
    }
  }
}
