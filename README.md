# Cusp request correlation, modelled in Dafny

Cusp is a Bluetooth Low Energy client library for iOS. Its core matches the
events the radio stack reports with the operations callers started. Callers
start an operation (discover services, discover characteristics, read a value,
connect, disconnect, cancel a connection). Each operation becomes a *request*
object held in a per-kind set. Each request carries a `success` and a `failure`
continuation and a `timedOut` flag. An event from the radio stack resolves the
first pending request it concerns. A time-out action scheduled by the operation
fails the request only while `timedOut` is still set.

This project models that core:

- `identities.dfy` (module `Identities`): peripheral identities, UUIDs, error
  kinds, caller continuations as opaque handles, and a first-match search.
- `string_order.dfy` (module `StringOrder`): the order UUID strings are sorted
  by, insertion sort, and the proof that permutations sort alike.
- `request_keys.dfy` (module `RequestKeys`): the content keys (`hash`) of the
  service-discovery, characteristic-discovery and read requests, as strings.
- `peripheral.dfy` (module `Peripherals`): the request object with its
  `timedOut` flag, `isEqual` by key, the request sets as sequences with at most
  one request per key, the `discover` and `read` operations of a peripheral,
  their time-out actions, and the availability checks.
- `advertisement.dfy` (module `Advertisements`): the advertisement value, its
  advertised UUIDs and their strings, and equality by peripheral.
- `central.dfy` (module `CentralDelegate`): the central manager's event
  handlers (discovered, connected, failed to connect, disconnected), the
  routing of advertisements to scan requests, and the lookups they use.

Modelling conventions:

- Each main-queue block, together with the blocks it dispatches, is one atomic
  step. Each time-out action is one method the environment may call later.
- The continuations a step calls are appended to a `callbacks` log, in order.
- The commands a peripheral sends to the radio stack go to a ghost `commands`
  log.
- A Swift `Set` of requests is a `seq` in iteration order. Inserting an
  element equal to one already present replaces it. Removing an element removes
  the member equal to it.

## Model

| member | source | states |
|---|---|---|
| StringOrder.SortCorrect | Discover.swift:50-52 | sorting the UUID strings yields them in ascending order, as a permutation of the input |
| StringOrder.SortIgnoresOrder | Discover.swift:50-52 | two lists holding the same strings, in any order, sort to the same list |
| RequestKeys.AppendAll | Discover.swift:54-57 | the `string +=` loop yields the prefix followed by every part, in order |
| RequestKeys.ServiceHash | Discover.swift:44-59 | the service request's key is "" for a nil filter, else the sorted UUID strings joined together |
| RequestKeys.CharacteristicHash | Discover.swift:107-122 | the characteristic request's key is the service UUID for a nil filter, else the service UUID string followed by the sorted filter strings |
| RequestKeys.ServiceKeyIgnoresOrder | Discover.swift:44-59 | permuting the service filter does not change the key |
| RequestKeys.ServiceKeyNilIsEmpty | Discover.swift:46-48 | a nil filter and an empty filter have the same key, the empty string |
| RequestKeys.CharacteristicKeyIgnoresOrder | Discover.swift:107-122 | permuting the characteristic filter does not change the key |
| RequestKeys.CharacteristicKeyShape | Discover.swift:107-122 | a filtered key starts with the service UUID string; the nil-filter key depends only on the service and equals no other key |
| RequestKeys.ServiceKeyMatchesExactlyPermutations | Discover.swift:44-66 | when all UUID strings have one length, two service filters have equal keys if and only if they hold the same strings with the same counts |
| RequestKeys.ServiceKeyMixedLengthsCollide | Discover.swift:50-58 | without one common length the key is not injective: the filter [180D, 180F] and the filter [180D180F] list different UUIDs but have the same key, so their service discoveries count as one request |
| Peripherals.Request.constructor | Read.swift:34-39 | a new request holds its kind and continuations, with `timedOut` set |
| Peripherals.IsEqualIsEquivalence | Discover.swift:61-66 | request equality is reflexive, symmetric and transitive |
| Peripherals.ServiceRequestEquality | Discover.swift:44-66 | a service discovery equals exactly the service discoveries with the same key; permuted filters, and nil versus empty, give equal requests |
| Peripherals.CharacteristicRequestEquality | Discover.swift:107-129 | a characteristic discovery equals exactly the characteristic discoveries with the same key; permuted filters of one service give equal requests |
| Peripherals.ReadRequestEquality | Read.swift:41-51 | a read equals exactly the reads of the same characteristic, whatever their continuations, and nothing of another class |
| Peripherals.SetInsertSpec | Discover.swift:151-153 | after an insert the set holds the request, keeps every request not equal to it, holds nothing else, and still has at most one request per key |
| Peripherals.SetRemoveMembers | Discover.swift:166-168 | after a remove the set holds exactly the requests not equal to the removed one |
| Peripherals.SetRemoveKeepsNoTwoEqual | Discover.swift:166-168 | a remove keeps at most one request per key |
| Peripherals.SetRemoveNoMatch | Discover.swift:166-168 | removing a request with no equal member leaves the set as it was |
| Peripherals.InsertThenRemove | Discover.swift:151-168 | inserting a request and then removing it on time-out leaves the set as removing its key alone would |
| Peripherals.Peripheral.DiscoverServices | Discover.swift:142-157 | unavailable: `failure(error)` is called and no request or command is made; available: a fresh request with `timedOut` set is inserted, the discover command is issued, and the other sets are untouched |
| Peripherals.Peripheral.ServiceDiscoveryTimeout | Discover.swift:159-170 | with `timedOut` set, `failure(TimedOut)` is called and the request's key leaves the set; with it cleared, nothing changes |
| Peripherals.Peripheral.DiscoverCharacteristics | Discover.swift:182-197 | unavailable: `failure(error)` and nothing else; available: the request is inserted and the discover command issued |
| Peripherals.Peripheral.CharacteristicDiscoveryTimeout | Discover.swift:199-210 | with `timedOut` set, `failure(TimedOut)` is called and the request's key leaves the set; with it cleared, nothing changes |
| Peripherals.Peripheral.Read | Read.swift:65-80 | unavailable: `failure(error)` and the read set unchanged; available: the read set keeps one request per characteristic, the new one for this characteristic, and the read command is issued |
| Peripherals.Peripheral.ReadTimeout | Read.swift:82-93 | with `timedOut` set, `failure(TimedOut)` is called and every read of that characteristic leaves the set; with it cleared, nothing changes |
| Peripherals.EveryStringFound | Discover.swift:237-245 | true if and only if every listed string is found, so true for an empty list |
| Peripherals.EveryUuidFound | Discover.swift:220-228 | finding every UUID's string is the same as finding every UUID |
| Peripherals.Peripheral.AreServicesAvailable | Discover.swift:220-228 | true if and only if a service is found for every listed UUID |
| Peripherals.Peripheral.AreServicesAvailableByString | Discover.swift:237-245 | true if and only if a service is found for every listed string |
| Peripherals.Peripheral.AreCharacteristicsAvailable | Discover.swift:254-262 | true if and only if a characteristic is found for every listed UUID |
| Peripherals.Peripheral.AreCharacteristicsAvailableByString | Discover.swift:271-279 | true if and only if a characteristic is found for every listed string |
| Advertisements.AdvertisingUuids | Advertisement.swift:30-32 | absent when the service-UUIDs entry is missing or is not a UUID array, else that array |
| Advertisements.AdvertisingUuidStrings | Advertisement.swift:35-44 | empty when no UUIDs are advertised, else the same length and order with element i the string of UUID i |
| Advertisements.AdvertisementEquality | Advertisement.swift:60-69 | two advertisements are equal if and only if they have the same peripheral, whatever the data and signal strength; never equal to another kind of object |
| Advertisements.InsertAdvertisementSpec | CentralManagerDelegate.swift:261 | inserting into a scan result keeps one advertisement per peripheral: the new one replaces that peripheral's old one, the rest stay |
| Advertisements.InsertNewPeripheral | CentralManagerDelegate.swift:261 | an advertisement of a peripheral not yet in the result is added at the end |
| Advertisements.InsertAdvertisementIdempotent | CentralManagerDelegate.swift:264 | inserting the same advertisement twice equals inserting it once |
| CentralDelegate.Includes | CentralManagerDelegate.swift:301-308 | true if and only if every element of the argument is in the receiver, so true for an empty argument |
| CentralDelegate.AnyIn | CentralManagerDelegate.swift:314-319 | true if and only if some element of the argument is in the receiver |
| CentralDelegate.OverlapsWith | CentralManagerDelegate.swift:310-320 | true if and only if the argument is present and shares an element with the receiver |
| CentralDelegate.ScanTarget | CentralManagerDelegate.swift:259-267 | the advertisement goes to the first scan request, in iteration order, whose filter is nil or overlaps the advertised UUIDs; none if no request takes it |
| CentralDelegate.NoUuidsGoToUnfilteredScan | CentralManagerDelegate.swift:260-264 | an advertisement without UUIDs, or with an empty UUID list, goes only to the first scan request with a nil filter |
| CentralDelegate.FirstTargeting | CentralManagerDelegate.swift:76-81 | the first request whose wrapper's core is the event's peripheral; none if there is none |
| CentralDelegate.FailLookupAsWrittenNeverMatches | CentralManagerDelegate.swift:121-126 | the failed-to-connect lookup as written finds no request, while the corrected lookup finds a request whenever one is aimed at the peripheral |
| CentralDelegate.FailLookupCounterexample | CentralManagerDelegate.swift:121-126 | a single connect request for the failing peripheral is missed by the lookup as written and found by the corrected one |
| CentralDelegate.CoreCatched | CentralManagerDelegate.swift:270-277 | true if and only if some cached wrapper has the given core |
| CentralDelegate.PeripheralFor | CentralManagerDelegate.swift:237-244 | a cached wrapper with the given core, or none exactly when no wrapper has that core |
| CentralDelegate.PeripheralForFindsCached | CentralManagerDelegate.swift:237-244 | with distinct cores, the lookup for a cached wrapper's core returns that wrapper |
| CentralDelegate.SessionFor | CentralManagerDelegate.swift:157 | the first session holding the wrapper, or none exactly when no session holds it |
| CentralDelegate.SessionOf | CentralManagerDelegate.swift:156-157 | a session found for an event's peripheral is the first session of the cached wrapper with that core; with distinct cores, none is found exactly when no session holds a cached wrapper with that core |
| CentralDelegate.Cusp.DidDiscoverPeripheral | CentralManagerDelegate.swift:52-61 | a core already cached changes nothing; a new core adds one fresh wrapper to the cache and its advertisement to the routed scan request only |
| CentralDelegate.Cusp.DealWithFoundPeripheral | CentralManagerDelegate.swift:253-268 | the wrapper is cached, and the advertisement is appended to the first scan request that takes it; every other scan request is unchanged |
| CentralDelegate.Cusp.DidConnectPeripheral | CentralManagerDelegate.swift:71-107 | with a matching connect request: `timedOut` cleared, `success(nil)` called once, one session with its abruption added when the wrapper is cached, the request removed; otherwise nothing changes |
| CentralDelegate.Cusp.DidFailToConnectPeripheral | CentralManagerDelegate.swift:116-141 | corrected lookup; with a matching connect request: `timedOut` cleared, `failure(error)` called, the request removed, no session; otherwise nothing changes |
| CentralDelegate.Cusp.DidDisconnectPeripheral | CentralManagerDelegate.swift:150-224 | with an error: the session's abruption is called and the session removed, request sets untouched; without: a matching disconnect request wins (completion, removal, session removal, `timedOut` left as it is), else a matching cancel-connect request is completed and removed, else nothing changes |

## Left out

- Radio-stack objects and commands: a peripheral is an opaque identity, but a service or a characteristic is identified by its UUID alone. So two service or characteristic objects that share a UUID (for example, characteristics of one UUID under two services) are not told apart, and the ghost command log records UUIDs, not objects: reading each of them logs the same read command twice. The request sets are not affected, since their keys use only UUIDs. Commands only go to a ghost log. The services and characteristics a peripheral has found are parameters of the availability checks.
- Queues and timing: the main, request, operation and session queues and the `dispatch_after` delay are not modelled. A deferred insert or remove happens in the same step as the block that dispatched it. So the race between a time-out's `failure` and a removal still queued is not captured.
- The availability check (`assertAvailability`) reads radio state outside this core; each operation takes its result as the parameter `availabilityError`.
- Swift `hashValue`: keys are compared as strings (or, for a characteristic request with a nil filter, as the service UUID). Two different keys whose Int hashes collide are treated as different.
- The `<=` on UUID strings is character-by-character lexicographic order. Swift's Unicode-aware `String` comparison is not modelled. The two agree on the uppercase hexadecimal UUID strings the radio stack produces.
- Custom peripheral classes chosen by a name regex (CentralManagerDelegate.swift:36-51, 282-295): a foreign regex engine and runtime class instantiation.
- Setting the radio object's `delegate` to the new wrapper (CentralManagerDelegate.swift:46, 58).
- The state-change notification (CentralManagerDelegate.swift:22) and the `log` calls.
- Building `NSError` values: only the error kind (time-out, or a code from the radio stack) is kept.
- `isConnectable` (Advertisement.swift:25-27), a forced cast from the data dictionary, and `description` (Advertisement.swift:75-77), string formatting.
- Advertisements.AdvertisingUuids: a service-UUIDs entry that is an array mixing UUIDs and other values is not modelled; an entry is either a UUID array or some other value.
- `sessionFor` lies outside the four Swift files modelled here. CentralDelegate.SessionFor takes it to return the first session that holds the wrapper.
- The `Peripheral` wrapper class, the classes of the connect, disconnect and cancel-connect requests, and the session class lie outside the four Swift files modelled here. They are taken to compare by object identity. So a new session is appended, a request is removed by identity, two advertisements are equal exactly when they hold the same wrapper object, and a wrapper never equals the radio stack's peripheral object (the Findings row depends on this).
- Iteration order of a Swift `Set`: where a new member lands, and how a removal reorders the others, depends on hashes. The model appends new members (requests, advertisements, cached wrappers, sessions) and keeps the others in order on a removal. So after an insert or a removal, which of two requests (or sessions) for one peripheral a later event finds first is the model's choice, not the source's. Each single step is faithful for the order current at that step.
- Swift 2's `Set.insert` is taken to replace a member equal to the inserted element. A time-out removes the member equal to its request, which may be a later request that replaced it.
- Scan, connect, disconnect and cancel-connect operations on the caller side lie outside the four Swift files modelled here, and so do their time-outs. CentralDelegate.Cusp.DidDisconnectPeripheral states the `timedOut` quirk but does not model the later time-out.
- The peripheral-side delegate events that resolve discover and read requests, and clear their `timedOut` flags, lie outside the four Swift files modelled here.

## Findings

| source | as written | input that shows it | evidently intended | confidence | as-written member | corrected member |
|---|---|---|---|---|---|---|
| CentralManagerDelegate.swift:122 | the failed-to-connect lookup compares the request's wrapper `req.peripheral` with the radio stack's peripheral object, two objects of different classes that are never equal | one pending connect request for peripheral P, then a failed-to-connect event for P: no request matches, so `failure(error)` is not called for this event, and the request stays pending until its time-out | compare `req.peripheral.core == peripheral`, as the connect path does at line 77 | medium (depends on the wrapper's `isEqual`, which lies outside the four Swift files modelled here); not executed | CentralDelegate.FailLookupCounterexample | CentralDelegate.Cusp.DidFailToConnectPeripheral |
