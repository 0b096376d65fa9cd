/** Identities and small values shared by every part of the model: the opaque
    handles the radio stack gives out, UUIDs, error kinds and caller closures,
    plus two sequence helpers (first-match search and removal at an index). */
module Identities {

  datatype Option<+T> = None | Some(value: T)

  /** Identity of a CoreBluetooth peripheral object (the `core` a wrapper holds). */
  type CoreId = nat

  /** A Bluetooth UUID, known by its canonical `UUIDString`. */
  datatype Uuid = Uuid(text: string)

  function UuidString(u: Uuid): string
  {
    u.text
  }

  /** The `UUIDString` of every UUID, in order. */
  function UuidStrings(uuids: seq<Uuid>): (r: seq<string>)
    ensures |r| == |uuids|
    ensures forall i :: 0 <= i < |uuids| ==> r[i] == UuidString(uuids[i])
  {
    seq(|uuids|, i requires 0 <= i < |uuids| => UuidString(uuids[i]))
  }

  /** The error a failure or abruption continuation receives. Only its kind is
      kept: a time-out raised by this library, or an error handed over by the
      radio stack or the availability gate (with its numeric code). */
  datatype Error = TimedOut | Native(code: int)

  /** A closure supplied by the caller (success, failure, completion or
      abruption), known only by its identity. A nil closure is a handler
      whose invocation has no effect. */
  type Handler = nat

  /** The first index whose element satisfies `p`, if any. */
  function FirstIndex<T>(s: seq<T>, p: T -> bool): (r: Option<nat>)
    ensures r.Some? ==> r.value < |s| && p(s[r.value])
    ensures r.Some? ==> forall j :: 0 <= j < r.value ==> !p(s[j])
    ensures r.None? ==> forall j :: 0 <= j < |s| ==> !p(s[j])
  {
    if |s| == 0 then None
    else if p(s[0]) then Some(0)
    else
      match FirstIndex(s[1..], p)
      case None => None
      case Some(k) => Some(k + 1)
  }

  /** `s` without its element at index `i`; the others keep their order. */
  function RemoveAt<T>(s: seq<T>, i: nat): (r: seq<T>)
    requires i < |s|
    ensures |r| == |s| - 1
    ensures forall j :: 0 <= j < i ==> r[j] == s[j]
    ensures forall j :: i <= j < |r| ==> r[j] == s[j + 1]
  {
    s[..i] + s[i + 1..]
  }
}
