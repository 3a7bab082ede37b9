/** The advertising and scan-response payloads the Pico W firmware hands to
    the controller (`setup_advertisements` and `scan_response_meshtastic_data`
    in src/platform/rp2xx0/PicoWBluetooth.cpp).  Both are sequences of AD
    structures as laid out in the Bluetooth Core Specification, Vol 3,
    Part C, Section 11: a length octet, then that many octets made of an AD
    type and its data.  A length octet of zero ends the significant part
    early. */
module Advertising {
  import opened Common

  /** Legacy advertising and scan-response data are at most 31 octets. */
  const AdvertisingMaxLength: nat := 31

  // AD types from the Bluetooth Assigned Numbers (Core Specification
  // Supplement, Part A, sections 1.1, 1.2 and 1.3).
  const FlagsType: byte := 0x01
  const IncompleteUuid128ListType: byte := 0x06
  const ShortenedLocalNameType: byte := 0x08
  const CompleteLocalNameType: byte := 0x09

  // Bits of the Flags AD type.
  const FlagLeLimitedDiscoverable: bv8 := 0x01
  const FlagLeGeneralDiscoverable: bv8 := 0x02
  const FlagBrEdrNotSupported: bv8 := 0x04

  /** LE General Discoverable Mode with BR/EDR not supported. */
  const LeOnlyGeneralDiscoverable: byte := (FlagLeGeneralDiscoverable | FlagBrEdrNotSupported) as int

  datatype AdStructure = AdStructure(adType: byte, data: seq<byte>)

  /** The length octet (type plus data) must fit in one octet. */
  predicate Encodable(ad: AdStructure)
  {
    |ad.data| + 1 < 256
  }

  function EncodeAd(ad: AdStructure): (r: seq<byte>)
    requires Encodable(ad)
    ensures |r| == |ad.data| + 2 && r[0] == |ad.data| + 1 && r[0] != 0
  {
    [|ad.data| + 1, ad.adType] + ad.data
  }

  function EncodeAds(ads: seq<AdStructure>): (r: seq<byte>)
    requires forall i :: 0 <= i < |ads| ==> Encodable(ads[i])
    decreases |ads|
  {
    if |ads| == 0 then [] else EncodeAd(ads[0]) + EncodeAds(ads[1..])
  }

  /** Reads AD structures up to the end of the payload or a zero length
      octet; `None` when a structure runs past the end. */
  function DecodeAds(bytes: seq<byte>): (r: Option<seq<AdStructure>>)
    ensures r.Some? ==> forall i :: 0 <= i < |r.value| ==> Encodable(r.value[i])
    decreases |bytes|
  {
    if |bytes| == 0 || bytes[0] == 0 then Some([])
    else
      var end: nat := 1 + bytes[0] as nat;
      if |bytes| < end then None
      else
        var ad := AdStructure(bytes[1], bytes[2 .. end]);
        match DecodeAds(bytes[end..])
        case None => None
        case Some(rest) => Some([ad] + rest)
  }

  lemma DecodeOne(ad: AdStructure, rest: seq<byte>)
    requires Encodable(ad)
    ensures DecodeAds(EncodeAd(ad) + rest)
         == (match DecodeAds(rest) case None => None case Some(ads) => Some([ad] + ads))
  {
    var bytes := EncodeAd(ad) + rest;
    assert bytes[2 .. 1 + bytes[0]] == ad.data;
    assert bytes[1 + bytes[0]..] == rest;
  }

  /** Decoding inverts encoding for every list of encodable structures. */
  lemma {:induction false} DecodeEncode(ads: seq<AdStructure>)
    requires forall i :: 0 <= i < |ads| ==> Encodable(ads[i])
    ensures DecodeAds(EncodeAds(ads)) == Some(ads)
    decreases |ads|
  {
    if |ads| > 0 {
      DecodeOne(ads[0], EncodeAds(ads[1..]));
      DecodeEncode(ads[1..]);
      assert [ads[0]] + ads[1..] == ads;
    }
  }

  // ---------------------------------------------------------------------
  // Advertising payload

  /** The length `strlen` reports, stored into the `uint8_t name_len`. */
  function NameLength(name: seq<byte>): (n: nat)
    ensures n < 256 && n <= |CString(name)|
    ensures |CString(name)| < 256 ==> n == |CString(name)|
  {
    |CString(name)| % 256
  }

  /** Room left for name bytes: 31 less the 3-octet Flags structure and the
      name structure's length and type octets. */
  const NameRoom: nat := AdvertisingMaxLength - 3 - 2

  function FitableNameLength(name: seq<byte>): (n: nat)
    ensures n <= NameRoom && n <= NameLength(name)
  {
    Min(NameRoom, NameLength(name))
  }

  /** The payload `setup_advertisements` builds from the device name (a NUL
      terminated array): the Flags structure, then the name structure
      carrying the first `fit` name bytes. */
  function AdvertisingData(name: seq<byte>): (r: seq<byte>)
    ensures |r| == 5 + FitableNameLength(name) <= AdvertisingMaxLength
    ensures r[..3] == [0x02, FlagsType, LeOnlyGeneralDiscoverable]
  {
    var fit := FitableNameLength(name);
    var nameType := if fit == NameLength(name) then CompleteLocalNameType
                    else ShortenedLocalNameType;
    [0x02, FlagsType, LeOnlyGeneralDiscoverable] + [fit + 1, nameType] + name[..fit]
  }

  /** The name structure the payload carries. */
  function NameAd(name: seq<byte>): AdStructure
  {
    var fit := FitableNameLength(name);
    AdStructure(if fit == NameLength(name) then CompleteLocalNameType else ShortenedLocalNameType,
                name[..fit])
  }

  /** The payload reads back as exactly two AD structures: the Flags
      structure with LE General Discoverable and BR/EDR not supported, then
      a local-name structure holding the first bytes of the name. */
  lemma AdvertisingDataDecodes(name: seq<byte>)
    ensures DecodeAds(AdvertisingData(name))
         == Some([AdStructure(FlagsType, [LeOnlyGeneralDiscoverable]), NameAd(name)])
  {
    var ads := [AdStructure(FlagsType, [LeOnlyGeneralDiscoverable]), NameAd(name)];
    assert EncodeAds(ads) == AdvertisingData(name) by {
      assert EncodeAds(ads[1..]) == EncodeAd(ads[1]) + EncodeAds([]);
    }
    DecodeEncode(ads);
  }

  /** For names shorter than 256 bytes the name structure is Complete Local
      Name exactly when it carries the whole name, and otherwise Shortened
      Local Name carrying the first 26 bytes. */
  lemma AdvertisedNameIsPrefix(name: seq<byte>)
    requires |CString(name)| < 256
    ensures NameAd(name).data == CString(name)[..|NameAd(name).data|]
    ensures NameAd(name).adType == CompleteLocalNameType <==> NameAd(name).data == CString(name)
    ensures NameAd(name).adType == ShortenedLocalNameType <==> |CString(name)| > NameRoom
    ensures NameAd(name).adType == ShortenedLocalNameType ==> |NameAd(name).data| == NameRoom
  {
  }

  /** `name_len` is only eight bits wide, so a 260-byte name reads as 4
      bytes long and goes out as a Complete Local Name of 4 bytes. */
  lemma LongNameLengthWraps(name: seq<byte>)
    requires |CString(name)| == 260
    ensures NameAd(name) == AdStructure(CompleteLocalNameType, CString(name)[..4])
  {
  }

  // ---------------------------------------------------------------------
  // Scan response

  /** The scan-response payload, bytes as listed in the firmware. */
  const ScanResponse: seq<byte> :=
    [17, IncompleteUuid128ListType, 0xfd, 0xea, 0x73, 0xe2, 0xca, 0x5d, 0xa8,
     0x9f, 0x1f, 0x46, 0xa8, 0x15, 0x18, 0xb2, 0xa1, 0x6b]

  /** The Meshtastic service UUID 6ba1b218-15a8-461f-9fa8-5dcae273eafd, its
      16 bytes in the order the text writes them (most significant first). */
  const MeshtasticServiceUuid: seq<byte> :=
    [0x6b, 0xa1, 0xb2, 0x18, 0x15, 0xa8, 0x46, 0x1f,
     0x9f, 0xa8, 0x5d, 0xca, 0xe2, 0x73, 0xea, 0xfd]

  /** The scan response is one "Incomplete List of 128-bit Service UUIDs"
      structure holding the Meshtastic service UUID in the little-endian
      byte order AD data uses, and it fits the 31-octet limit. */
  lemma ScanResponseCarriesServiceUuid()
    ensures DecodeAds(ScanResponse)
         == Some([AdStructure(IncompleteUuid128ListType, Reverse(MeshtasticServiceUuid))])
    ensures ScanResponse[0] == 1 + |MeshtasticServiceUuid| && |ScanResponse| <= AdvertisingMaxLength
  {
    var ad := AdStructure(IncompleteUuid128ListType, Reverse(MeshtasticServiceUuid));
    UuidBytesReversed();
    assert EncodeAds([ad]) == EncodeAd(ad) + EncodeAds([]);
    assert EncodeAd(ad) == ScanResponse;
    assert EncodeAds([ad]) == ScanResponse;
    DecodeEncode([ad]);
  }

  lemma UuidBytesReversed()
    ensures Reverse(MeshtasticServiceUuid) == ScanResponse[2..]
  {
    var u := MeshtasticServiceUuid;
    var r := Reverse(u);
    forall i | 0 <= i < 16
      ensures r[i] == ScanResponse[2 + i]
    {
      assert r[i] == u[15 - i];
    }
  }
}
