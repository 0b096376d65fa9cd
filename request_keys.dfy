/** The content keys of the three keyed request kinds (the `hash` properties of
    ServiceDiscoveringRequest, CharacteristicDiscoveringRequest and ReadRequest).
    Each `isEqual` compares these keys, so a key decides which requests a
    registry treats as the same request. The keys are kept as strings and
    strings-or-UUIDs rather than as the Int hashes of those strings. */
module RequestKeys {
  import opened Identities
  import opened StringOrder

  /** `uuids` sorted by their `UUIDString`, as strings. */
  function SortedUuidStrings(uuids: seq<Uuid>): seq<string>
  {
    Sort(UuidStrings(uuids))
  }

  /** Key of a service discovery: the empty string for a nil filter, otherwise
      the sorted UUID strings written one after the other. */
  function ServiceKey(serviceUuids: Option<seq<Uuid>>): string
  {
    match serviceUuids
    case None => ""
    case Some(uuids) => Concat(SortedUuidStrings(uuids))
  }

  /** Key of a characteristic discovery. With a nil filter the source hashes the
      service's UUID object itself; otherwise it hashes the service's UUID string
      followed by the sorted filter strings. The two are different hashes, kept
      apart here as two variants. */
  datatype CharacteristicRequestKey =
    | ServiceUuidHash(service: Uuid)
    | JoinedStrings(text: string)

  function CharacteristicKey(characteristicUuids: Option<seq<Uuid>>, service: Uuid): CharacteristicRequestKey
  {
    match characteristicUuids
    case None => ServiceUuidHash(service)
    case Some(uuids) => JoinedStrings(UuidString(service) + Concat(SortedUuidStrings(uuids)))
  }

  /** Key of a read: the characteristic's UUID string. */
  function ReadKey(characteristic: Uuid): string
  {
    UuidString(characteristic)
  }

  /** Appends `parts` to `prefix`, one string at a time (the `string +=` loop). */
  method AppendAll(prefix: string, parts: seq<string>) returns (s: string)
    ensures s == prefix + Concat(parts)
  {
    s := prefix;
    for i := 0 to |parts|
      invariant s == prefix + Concat(parts[..i])
    {
      assert parts[..i + 1][..i] == parts[..i];
      s := s + parts[i];
    }
    assert parts[..|parts|] == parts;
  }

  /** The string the service request's `hash` hashes. */
  method ServiceHash(serviceUuids: Option<seq<Uuid>>) returns (key: string)
    ensures key == ServiceKey(serviceUuids)
  {
    match serviceUuids {
      case None =>
        key := "";
      case Some(uuids) =>
        var sorted := SortedUuidStrings(uuids);
        key := AppendAll("", sorted);
    }
  }

  /** The value the characteristic request's `hash` hashes. */
  method CharacteristicHash(characteristicUuids: Option<seq<Uuid>>, service: Uuid) returns (key: CharacteristicRequestKey)
    ensures key == CharacteristicKey(characteristicUuids, service)
  {
    match characteristicUuids {
      case None =>
        key := ServiceUuidHash(service);
      case Some(uuids) =>
        var sorted := SortedUuidStrings(uuids);
        var text := AppendAll(UuidString(service), sorted);
        key := JoinedStrings(text);
    }
  }

  /** A string occurs among the UUID strings as often as its UUID among the UUIDs. */
  lemma {:induction false} UuidStringCount(s: seq<Uuid>, t: string)
    ensures multiset(UuidStrings(s))[t] == multiset(s)[Uuid(t)]
  {
    if s != [] {
      var init, last := s[..|s| - 1], s[|s| - 1];
      UuidStringCount(init, t);
      assert s == init + [last];
      assert UuidStrings(s) == UuidStrings(init) + [UuidString(last)];
    }
  }

  /** Permuting UUIDs permutes their strings. */
  lemma UuidStringsPermute(u: seq<Uuid>, v: seq<Uuid>)
    requires multiset(u) == multiset(v)
    ensures multiset(UuidStrings(u)) == multiset(UuidStrings(v))
  {
    forall t | true
      ensures multiset(UuidStrings(u))[t] == multiset(UuidStrings(v))[t]
    {
      UuidStringCount(u, t);
      UuidStringCount(v, t);
    }
  }

  /** The order the caller lists the services in does not change the key. */
  lemma ServiceKeyIgnoresOrder(u: seq<Uuid>, v: seq<Uuid>)
    requires multiset(u) == multiset(v)
    ensures ServiceKey(Some(u)) == ServiceKey(Some(v))
  {
    UuidStringsPermute(u, v);
    SortIgnoresOrder(UuidStrings(u), UuidStrings(v));
  }

  /** A nil filter and an empty filter have the same key. */
  lemma ServiceKeyNilIsEmpty()
    ensures ServiceKey(None) == ServiceKey(Some([])) == ""
  {
  }

  /** The order of the characteristic filter does not change the key. */
  lemma CharacteristicKeyIgnoresOrder(service: Uuid, u: seq<Uuid>, v: seq<Uuid>)
    requires multiset(u) == multiset(v)
    ensures CharacteristicKey(Some(u), service) == CharacteristicKey(Some(v), service)
  {
    UuidStringsPermute(u, v);
    SortIgnoresOrder(UuidStrings(u), UuidStrings(v));
  }

  /** With a filter, the key starts with the service's UUID string; with no
      filter, it is determined by the service alone and never coincides with a
      filtered key. */
  lemma CharacteristicKeyShape(filter: Option<seq<Uuid>>, service: Uuid)
    ensures filter.Some? ==>
      CharacteristicKey(filter, service).JoinedStrings? &&
      CharacteristicKey(filter, service).text[..|UuidString(service)|] == UuidString(service)
    ensures forall other: Uuid, f: Option<seq<Uuid>> ::
      CharacteristicKey(None, service) == CharacteristicKey(f, other) <==> f.None? && other == service
  {
  }

  /** Every string in `parts` has length `len`. */
  predicate AllOfLength(parts: seq<string>, len: nat)
  {
    forall i :: 0 <= i < |parts| ==> |parts[i]| == len
  }

  lemma {:induction false} ConcatLength(parts: seq<string>, len: nat)
    requires AllOfLength(parts, len)
    ensures |Concat(parts)| == |parts| * len
  {
    if parts != [] {
      ConcatLength(parts[..|parts| - 1], len);
      assert (|parts| - 1) * len + len == |parts| * len;
    }
  }

  /** Concatenation of strings of one common, positive length can be undone. */
  lemma {:induction false} ConcatInjective(a: seq<string>, b: seq<string>, len: nat)
    requires len > 0 && AllOfLength(a, len) && AllOfLength(b, len)
    requires Concat(a) == Concat(b)
    ensures a == b
    decreases |a|
  {
    ConcatLength(a, len);
    ConcatLength(b, len);
    assert |a| == |b|;
    if a != [] {
      var n := |a|;
      var ca, cb := Concat(a[..n - 1]), Concat(b[..n - 1]);
      ConcatLength(a[..n - 1], len);
      ConcatLength(b[..n - 1], len);
      assert |ca| == |cb|;
      assert Concat(a) == ca + a[n - 1] && Concat(b) == cb + b[n - 1];
      assert ca == Concat(a)[..|ca|] && cb == Concat(b)[..|cb|];
      assert a[n - 1] == Concat(a)[|ca|..] && b[n - 1] == Concat(b)[|cb|..];
      ConcatInjective(a[..n - 1], b[..n - 1], len);
      assert a == a[..n - 1] + [a[n - 1]] && b == b[..n - 1] + [b[n - 1]];
    }
  }

  /** When every UUID string has one common length (the canonical form), two
      service filters have the same key exactly when they list the same UUID
      strings, counting repeats, in any order. */
  lemma ServiceKeyMatchesExactlyPermutations(u: seq<Uuid>, v: seq<Uuid>, len: nat)
    requires len > 0 && AllOfLength(UuidStrings(u), len) && AllOfLength(UuidStrings(v), len)
    ensures ServiceKey(Some(u)) == ServiceKey(Some(v)) <==>
            multiset(UuidStrings(u)) == multiset(UuidStrings(v))
  {
    var su, sv := UuidStrings(u), UuidStrings(v);
    SortCorrect(su);
    SortCorrect(sv);
    if multiset(su) == multiset(sv) {
      SortIgnoresOrder(su, sv);
    }
    if ServiceKey(Some(u)) == ServiceKey(Some(v)) {
      forall i | 0 <= i < |Sort(su)| ensures |Sort(su)[i]| == len {
        assert Sort(su)[i] in multiset(su);
      }
      forall i | 0 <= i < |Sort(sv)| ensures |Sort(sv)[i]| == len {
        assert Sort(sv)[i] in multiset(sv);
      }
      ConcatInjective(Sort(su), Sort(sv), len);
    }
  }

  /** Without the common length, keys collide: the two 16-bit service UUIDs
      180D and 180F, asked for together, have the same key as the one 32-bit
      UUID 180D180F, although the filters list different UUIDs. */
  lemma ServiceKeyMixedLengthsCollide()
    ensures multiset(UuidStrings([Uuid("180D"), Uuid("180F")])) != multiset(UuidStrings([Uuid("180D180F")]))
    ensures ServiceKey(Some([Uuid("180D"), Uuid("180F")])) == ServiceKey(Some([Uuid("180D180F")]))
  {
    var pair, single := UuidStrings([Uuid("180D"), Uuid("180F")]), UuidStrings([Uuid("180D180F")]);
    assert pair == ["180D", "180F"];
    assert single == ["180D180F"];
    assert multiset(pair)["180D"] == 1 && multiset(single)["180D"] == 0;
    SortedPairKey();
    assert Sort(single) == ["180D180F"];
    assert Concat(["180D180F"]) == "180D180F";
  }

  /** The two 16-bit UUID strings sort as listed and join to "180D180F". */
  lemma SortedPairKey()
    ensures Concat(Sort(["180D", "180F"])) == "180D180F"
  {
    assert Le("0D", "0F") by {
      assert "0D"[1..] == "D" && "0F"[1..] == "F";
    }
    assert Le("180D", "180F") by {
      assert "180D"[1..] == "80D" && "180F"[1..] == "80F";
      assert "80D"[1..] == "0D" && "80F"[1..] == "0F";
    }
    assert ["180D", "180F"][1..] == ["180F"];
    assert Sort(["180D", "180F"]) == ["180D", "180F"];
    assert ["180D", "180F"][..1] == ["180D"];
    assert Concat(["180D"]) == "180D";
  }
}
