/** The advertisement a scan reports for one peripheral: the wrapped
    peripheral, the advertisement data dictionary and the signal strength, the
    advertised service UUIDs read out of the dictionary, and equality by
    peripheral, which makes a scan's result set hold one advertisement per
    device. */
module Advertisements {
  import opened Identities
  import opened Peripherals

  /** A value of the advertisement data dictionary: an array of UUIDs, or
      anything else (a name, a flag, manufacturer data, ...). */
  datatype AdValue = UuidArray(uuids: seq<Uuid>) | OtherValue

  /** The dictionary key of the advertised service UUIDs. */
  const ServiceUuidsKey: string := "kCBAdvDataServiceUUIDs"

  datatype Advertisement = Advertisement(peripheral: Peripheral, advertisementData: map<string, AdValue>, rssi: int)

  /** `advertisingUUIDs`: the service-UUIDs entry, when it is present and is
      an array of UUIDs. */
  function AdvertisingUuids(ad: Advertisement): (r: Option<seq<Uuid>>)
    ensures ServiceUuidsKey !in ad.advertisementData ==> r.None?
    ensures r.Some? <==> ServiceUuidsKey in ad.advertisementData && ad.advertisementData[ServiceUuidsKey].UuidArray?
    ensures r.Some? ==> UuidArray(r.value) == ad.advertisementData[ServiceUuidsKey]
  {
    if ServiceUuidsKey in ad.advertisementData then
      match ad.advertisementData[ServiceUuidsKey]
      case UuidArray(uuids) => Some(uuids)
      case OtherValue => None
    else None
  }

  /** `advertisingUUIDStrings`: the `UUIDString` of every advertised UUID, in
      order, and nothing when no UUIDs are advertised. */
  method AdvertisingUuidStrings(ad: Advertisement) returns (strings: seq<string>)
    ensures AdvertisingUuids(ad).None? ==> strings == []
    ensures AdvertisingUuids(ad).Some? ==>
      && |strings| == |AdvertisingUuids(ad).value|
      && forall i :: 0 <= i < |strings| ==> strings[i] == UuidString(AdvertisingUuids(ad).value[i])
  {
    strings := [];
    match AdvertisingUuids(ad) {
      case None =>
      case Some(uuids) =>
        for i := 0 to |uuids|
          invariant |strings| == i
          invariant forall j :: 0 <= j < i ==> strings[j] == UuidString(uuids[j])
        {
          strings := strings + [UuidString(uuids[i])];
        }
    }
  }

  /** The object `isEqual` is handed: an advertisement or any other object. */
  datatype AnyObject = AdvertisementObject(ad: Advertisement) | OtherObject

  /** `isEqual`: another advertisement whose `hash`, the peripheral's own hash,
      is the same; peripherals are compared by identity. */
  predicate IsEqual(a: Advertisement, other: AnyObject)
  {
    match other
    case AdvertisementObject(b) => a.peripheral == b.peripheral
    case OtherObject => false
  }

  /** Equality looks at the peripheral only: it holds whatever the data and the
      signal strength, and it is an equivalence. */
  lemma AdvertisementEquality(a: Advertisement, b: Advertisement, c: Advertisement)
    ensures IsEqual(a, AdvertisementObject(b)) <==> a.peripheral == b.peripheral
    ensures IsEqual(a, AdvertisementObject(a.(advertisementData := b.advertisementData, rssi := b.rssi)))
    ensures IsEqual(a, AdvertisementObject(b)) ==> IsEqual(b, AdvertisementObject(a))
    ensures IsEqual(a, AdvertisementObject(b)) && IsEqual(b, AdvertisementObject(c)) ==> IsEqual(a, AdvertisementObject(c))
    ensures !IsEqual(a, OtherObject)
  {
  }

  /** At most one advertisement per peripheral. */
  predicate OnePerPeripheral(available: seq<Advertisement>)
  {
    forall i, j :: 0 <= i < j < |available| ==> available[i].peripheral != available[j].peripheral
  }

  /** Where the advertisement of `p` sits in `available`, if anywhere. */
  function IndexOfPeripheral(available: seq<Advertisement>, p: Peripheral): Option<nat>
  {
    FirstIndex(available, (x: Advertisement) => x.peripheral == p)
  }

  /** `available.insert(ad)`: `ad` takes the place of the advertisement of the
      same peripheral, if there is one, and is added otherwise. */
  function InsertAdvertisement(available: seq<Advertisement>, ad: Advertisement): seq<Advertisement>
  {
    match IndexOfPeripheral(available, ad.peripheral)
    case Some(i) => available[i := ad]
    case None => available + [ad]
  }

  /** After an insertion the set holds `ad`, every advertisement of another
      peripheral, nothing else, and still one advertisement per peripheral. */
  lemma InsertAdvertisementSpec(available: seq<Advertisement>, ad: Advertisement)
    requires OnePerPeripheral(available)
    ensures ad in InsertAdvertisement(available, ad)
    ensures forall x :: x in InsertAdvertisement(available, ad) <==>
      x == ad || (x in available && x.peripheral != ad.peripheral)
    ensures OnePerPeripheral(InsertAdvertisement(available, ad))
  {
    var out := InsertAdvertisement(available, ad);
    match IndexOfPeripheral(available, ad.peripheral)
    case Some(i) =>
      assert out[i] == ad;
      forall x ensures x in out <==> x == ad || (x in available && x.peripheral != ad.peripheral) {
        if x in out && x != ad {
          var k :| 0 <= k < |out| && out[k] == x;
          assert k != i && available[k] == x;
        }
        if x in available && x.peripheral != ad.peripheral {
          var k :| 0 <= k < |available| && available[k] == x;
          assert out[k] == x;
        }
      }
    case None =>
  }

  /** A peripheral that has no advertisement in the set gets one added at the end. */
  lemma InsertNewPeripheral(available: seq<Advertisement>, ad: Advertisement)
    requires forall x :: x in available ==> x.peripheral != ad.peripheral
    ensures InsertAdvertisement(available, ad) == available + [ad]
  {
    match IndexOfPeripheral(available, ad.peripheral)
    case Some(i) =>
      assert false;
    case None =>
  }

  /** Inserting the same advertisement twice is the same as inserting it once. */
  lemma InsertAdvertisementIdempotent(available: seq<Advertisement>, ad: Advertisement)
    requires OnePerPeripheral(available)
    ensures InsertAdvertisement(InsertAdvertisement(available, ad), ad) == InsertAdvertisement(available, ad)
  {
    var once := InsertAdvertisement(available, ad);
    InsertAdvertisementSpec(available, ad);
    var i :| 0 <= i < |once| && once[i] == ad;
    match IndexOfPeripheral(once, ad.peripheral)
    case Some(k) =>
      assert k == i;
      assert once[k := ad] == once;
    case None =>
      assert false;
  }
}
