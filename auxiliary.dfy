// The part of every protocol header that `protocol_header` holds: version,
// checksum kind and value, content length, protocol kind and the extra
// `key: value` header map, with the integrity check over a message body.
module Auxiliary {
  import opened Wrappers
  import Crc32

  type Word32 = x: int | 0 <= x < 0x1_0000_0000

  /** `protocol_type`, in declaration order. */
  datatype ProtocolType = JsonRpc | WebSocket | CustomTcp | BinaryStream | UserDefined

  /** `checksum_type`, in declaration order. */
  datatype ChecksumType = Crc | Md5 | Sha256 | Custom
  {
    /** The underlying uint8 value. */
    function Code(): (n: nat)
      ensures n < 4
    {
      match this
      case Crc => 0
      case Md5 => 1
      case Sha256 => 2
      case Custom => 3
    }
  }

  /** The kind an underlying value names, if any. */
  function ChecksumOfCode(n: nat): (r: Option<ChecksumType>)
    ensures r.Some? <==> n < 4
    ensures r.Some? ==> r.value.Code() == n
  {
    if n == 0 then Some(Crc)
    else if n == 1 then Some(Md5)
    else if n == 2 then Some(Sha256)
    else if n == 3 then Some(Custom)
    else None
  }

  lemma ChecksumCodeRoundTrip(t: ChecksumType)
    ensures ChecksumOfCode(t.Code()) == Some(t)
  {
  }

  /**
   * The two digests the MD5 and SHA-256 branches read their value from: the
   * first 8 hex digits of the digest, as a uint32. The hash functions live
   * in a foreign library, so they are parameters of the model.
   */
  datatype Digests = Digests(md5: string -> Word32, sha256: string -> Word32)

  /** A `char` of the message as the byte the CRC reads (its low eight bits). */
  function ByteOf(c: char): bv8
  {
    if c as int < 256 then c as bv8 else (c as int % 256) as bv8
  }

  function Bytes(s: string): (b: seq<bv8>)
    ensures |b| == |s|
  {
    seq(|s|, i requires 0 <= i < |s| => ByteOf(s[i]))
  }

  /** `calculate_check_code`: the CRC-32 of all of the data, a digest prefix, or 0 for CUSTOM. */
  function CheckCode(kind: ChecksumType, data: string, digests: Digests): (r: Word32)
    ensures kind == Crc ==> r == Crc32.Checksum(Bytes(data))
    ensures kind == Custom ==> r == 0
  {
    match kind
    case Crc => Crc32.Checksum(Bytes(data))
    case Md5 => digests.md5(data)
    case Sha256 => digests.sha256(data)
    case Custom => 0
  }

  /** The CRC branch on the standard check input "123456789" gives the standard check value. */
  lemma CheckCodeOfDigits(s: string, digests: Digests)
    requires s == "123456789"
    ensures CheckCode(Crc, s, digests) == 0xCBF4_3926
  {
    var b := Bytes(s);
    assert b[0] == 0x31 && b[1] == 0x32 && b[2] == 0x33 && b[3] == 0x34 && b[4] == 0x35;
    assert b[5] == 0x36 && b[6] == 0x37 && b[7] == 0x38 && b[8] == 0x39;
    Crc32.ChecksumOfDigits(b);
  }

  /** `protocol_header`: the fields every request and response header shares. */
  class ProtocolHeader {
    var version: Word32
    var checksumValue: Word32
    var contentLength: nat
    var checksumType: ChecksumType
    var headers: map<string, string>
    var protocolType: ProtocolType

    /** The defaults: version 1, checksum 0, length 0, CRC-32, the custom TCP protocol, no headers. */
    constructor()
      ensures version == 1 && checksumValue == 0 && contentLength == 0
      ensures checksumType == Crc && protocolType == CustomTcp && headers == map[]
    {
      version := 1;
      checksumValue := 0;
      contentLength := 0;
      checksumType := Crc;
      headers := map[];
      protocolType := CustomTcp;
    }

    /** `get_header`: the value stored under key, or nothing. */
    function GetHeader(key: string): (r: Option<string>)
      reads this
      ensures r.Some? <==> key in headers
      ensures r.Some? ==> r.value == headers[key]
    {
      if key in headers then Some(headers[key]) else None
    }

    /** `set_header`: stores value under key, replacing an earlier value. */
    method SetHeader(key: string, value: string)
      modifies this
      ensures headers == old(headers)[key := value]
      ensures GetHeader(key) == Some(value)
      ensures forall k :: k != key ==> GetHeader(k) == old(GetHeader(k))
      ensures version == old(version) && checksumValue == old(checksumValue)
      ensures contentLength == old(contentLength) && checksumType == old(checksumType)
      ensures protocolType == old(protocolType)
    {
      headers := headers[key := value];
    }

    /** `remove_header`: true iff the key was there; it is gone afterwards. */
    method RemoveHeader(key: string) returns (existed: bool)
      modifies this
      ensures existed <==> old(GetHeader(key)).Some?
      ensures headers == old(headers) - {key}
      ensures GetHeader(key) == None
      ensures forall k :: k != key ==> GetHeader(k) == old(GetHeader(k))
      ensures version == old(version) && checksumValue == old(checksumValue)
      ensures contentLength == old(contentLength) && checksumType == old(checksumType)
      ensures protocolType == old(protocolType)
    {
      existed := key in headers;
      headers := headers - {key};
    }

    /** `clear_headers`: no key is found afterwards. */
    method ClearHeaders()
      modifies this
      ensures headers == map[]
      ensures forall k :: GetHeader(k) == None
      ensures version == old(version) && checksumValue == old(checksumValue)
      ensures contentLength == old(contentLength) && checksumType == old(checksumType)
      ensures protocolType == old(protocolType)
    {
      headers := map[];
    }

    /** `verify_integrity`: the length must match, then the check code must equal the stored one. */
    function VerifyIntegrity(content: string, digests: Digests): (ok: bool)
      reads this
      ensures ok ==> |content| == contentLength
      ensures checksumType == Custom ==> (ok <==> |content| == contentLength && checksumValue == 0)
    {
      |content| == contentLength && CheckCode(checksumType, content, digests) == checksumValue
    }

    /** `calculate_and_set_checksum`: records the length and check code of content, so it then verifies. */
    method CalculateAndSetChecksum(content: string, digests: Digests) returns (value: Word32)
      modifies this
      ensures contentLength == |content|
      ensures value == checksumValue == CheckCode(checksumType, content, digests)
      ensures VerifyIntegrity(content, digests)
      ensures version == old(version) && checksumType == old(checksumType)
      ensures headers == old(headers) && protocolType == old(protocolType)
    {
      contentLength := |content|;
      checksumValue := CheckCode(checksumType, content, digests);
      value := checksumValue;
    }
  }
}
