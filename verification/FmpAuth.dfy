/** FmpAuthHeaderClass of Tools/Python/GenCapsule/Uefi/Capsule/FmpAuthHeader.py: a certificate in
    front of a payload. */
module FmpAuth {
  import opened Bytes
  import opened ByteOrder
  import opened FmpImage
  import opened PyStruct

  const AUTH_STRUCT_SIZE := 32
  const AUTH_INFO_SIZE := 24
  const MONOTONIC_COUNT_SIZE := 8
  const WIN_CERT_REVISION := 0x0200
  const WIN_CERT_TYPE_EFI_GUID := 0x0EF1

  // a7717414-c616-4977-9420-844712a735bf
  const CERT_TYPE_RSA2048SHA256: Guid := [
    0x14, 0x74, 0x71, 0xa7, 0x16, 0xc6, 0x77, 0x49, 0x94, 0x20, 0x84, 0x47, 0x12, 0xa7, 0x35, 0xbf]

  datatype AuthHeader = AuthHeader(
    valid: bool, monotonicCount: nat, length: nat, revision: nat, certificateType: nat, certType: Guid,
    certData: seq<byte>, payload: seq<byte>)

  predicate KnownKind(h: AuthHeader) {
    h.revision == WIN_CERT_REVISION && h.certificateType == WIN_CERT_TYPE_EFI_GUID && h.certType == CERT_TYPE_RSA2048SHA256
  }

  function PackedAuth(h: AuthHeader): (s: seq<byte>)
    ensures |s| == AUTH_STRUCT_SIZE
  {
    LeBytes(h.monotonicCount, 8) + LeBytes(h.length, 4) + LeBytes(h.revision, 2) + LeBytes(h.certificateType, 2) + h.certType
  }

  function EncodeAuth(h: AuthHeader): (Result<seq<byte>>, AuthHeader) {
    if !KnownKind(h) then (Raised(ValueError), h)
    else
      var sized := h.(length := AUTH_INFO_SIZE + |h.certData|);
      if sized.monotonicCount >= U64 || sized.length >= U32 then (Raised(StructError), sized)
      else (Ok(PackedAuth(sized) + h.certData + h.payload), sized.(valid := true))
  }

  function DecodeAuth(h: AuthHeader, buffer: seq<byte>): (Result<seq<byte>>, AuthHeader) {
    if |buffer| < AUTH_STRUCT_SIZE then (Raised(ValueError), h)
    else
      var length := LeVal(buffer[8..12]);
      var read := AuthHeader(true, LeVal(buffer[0..8]), length, LeVal(buffer[12..14]), LeVal(buffer[14..16]), buffer[16..32],
                             Slice(buffer, AUTH_STRUCT_SIZE, MONOTONIC_COUNT_SIZE + length),
                             Slice(buffer, MONOTONIC_COUNT_SIZE + length, |buffer|));
      if length < AUTH_INFO_SIZE || !KnownKind(read) then (Raised(ValueError), h) else (Ok(read.payload), read)
  }

  lemma AuthFields(h: AuthHeader)
    ensures var s := PackedAuth(h);
            && s[0..8] == LeBytes(h.monotonicCount, 8) && s[8..12] == LeBytes(h.length, 4)
            && s[12..14] == LeBytes(h.revision, 2) && s[14..16] == LeBytes(h.certificateType, 2) && s[16..32] == h.certType
  {
  }

  // Certificate and payload are recovered, whatever the decoding object held.
  lemma AuthRoundTrip(h: AuthHeader, other: AuthHeader)
    requires EncodeAuth(h).0.Ok?
    ensures DecodeAuth(other, EncodeAuth(h).0.value) == (Ok(h.payload), EncodeAuth(h).1)
    ensures EncodeAuth(h).1.certData == h.certData && EncodeAuth(h).1.payload == h.payload
  {
    var sized := h.(length := AUTH_INFO_SIZE + |h.certData|);
    var (s, body) := (PackedAuth(sized), h.certData + h.payload);
    var buffer := EncodeAuth(h).0.value;
    assert buffer == s + body;
    AuthFields(sized);
    SliceOfFront(s, body, 0, 8);
    SliceOfFront(s, body, 8, 12);
    SliceOfFront(s, body, 12, 14);
    SliceOfFront(s, body, 14, 16);
    SliceOfFront(s, body, 16, 32);
    PackedValue(sized.monotonicCount, 8);
    PackedValue(sized.length, 4);
    PackedValue(sized.revision, 2);
    PackedValue(sized.certificateType, 2);
    assert buffer[32..32 + |h.certData|] == h.certData;
    assert buffer[32 + |h.certData|..|buffer|] == h.payload;
  }

  // An accepted buffer is encoded again to the same bytes exactly when its certificate does
  // not claim to be longer than the buffer.
  lemma AuthReencode(buffer: seq<byte>, other: AuthHeader)
    requires DecodeAuth(other, buffer).0.Ok?
    ensures var h := DecodeAuth(other, buffer).1;
            (EncodeAuth(h).0 == Ok(buffer) && EncodeAuth(h).1 == h) <==> MONOTONIC_COUNT_SIZE + h.length <= |buffer|
  {
    var h := DecodeAuth(other, buffer).1;
    Widths();
    LeValBack(buffer[0..8]);
    LeValBack(buffer[8..12]);
    LeValBack(buffer[12..14]);
    LeValBack(buffer[14..16]);
    if MONOTONIC_COUNT_SIZE + h.length <= |buffer| {
      assert |h.certData| == h.length - AUTH_INFO_SIZE;
      AuthParts(buffer, MONOTONIC_COUNT_SIZE + h.length);
    } else {
      assert |h.certData| == |buffer| - AUTH_STRUCT_SIZE;
    }
  }

  lemma AuthParts(s: seq<byte>, n: nat)
    requires AUTH_STRUCT_SIZE <= n <= |s|
    ensures s[0..8] + s[8..12] + s[12..14] + s[14..16] + s[16..32] + s[32..n] + s[n..|s|] == s
  {
  }

  class FmpAuthHeader {
    var valid: bool
    var monotonicCount: nat
    var dwLength: nat
    var wRevision: nat
    var wCertificateType: nat
    var certType: Guid
    var certData: seq<byte>
    var payload: seq<byte>

    function Contents(): AuthHeader
      reads this
    {
      AuthHeader(valid, monotonicCount, dwLength, wRevision, wCertificateType, certType, certData, payload)
    }

    constructor ()
      ensures Contents() == AuthHeader(false, 0, AUTH_INFO_SIZE, WIN_CERT_REVISION, WIN_CERT_TYPE_EFI_GUID, CERT_TYPE_RSA2048SHA256, [], [])
    {
      valid, monotonicCount, dwLength := false, 0, AUTH_INFO_SIZE;
      wRevision, wCertificateType, certType := WIN_CERT_REVISION, WIN_CERT_TYPE_EFI_GUID, CERT_TYPE_RSA2048SHA256;
      certData, payload := [], [];
    }

    method Encode() returns (r: Result<seq<byte>>)
      modifies this
      ensures (r, Contents()) == EncodeAuth(old(Contents()))
    {
      if wRevision != WIN_CERT_REVISION || wCertificateType != WIN_CERT_TYPE_EFI_GUID || certType != CERT_TYPE_RSA2048SHA256 {
        return Raised(ValueError);
      }
      dwLength := AUTH_INFO_SIZE + |certData|;
      if monotonicCount >= U64 || dwLength >= U32 {
        return Raised(StructError);
      }
      var header := LeBytes(monotonicCount, 8) + LeBytes(dwLength, 4) + LeBytes(wRevision, 2) + LeBytes(wCertificateType, 2) + certType;
      valid := true;
      r := Ok(header + certData + payload);
    }

    method Decode(buffer: seq<byte>) returns (r: Result<seq<byte>>)
      modifies this
      ensures (r, Contents()) == DecodeAuth(old(Contents()), buffer)
    {
      if |buffer| < AUTH_STRUCT_SIZE {
        return Raised(ValueError);
      }
      var count, length := LeVal(buffer[0..8]), LeVal(buffer[8..12]);
      var revision, kind := LeVal(buffer[12..14]), LeVal(buffer[14..16]);
      if length < AUTH_INFO_SIZE {
        return Raised(ValueError);
      }
      if revision != WIN_CERT_REVISION || kind != WIN_CERT_TYPE_EFI_GUID || buffer[16..32] != CERT_TYPE_RSA2048SHA256 {
        return Raised(ValueError);
      }
      monotonicCount, dwLength, wRevision, wCertificateType := count, length, revision, kind;
      certType := buffer[16..32];
      certData := Slice(buffer, AUTH_STRUCT_SIZE, MONOTONIC_COUNT_SIZE + dwLength);
      payload := Slice(buffer, MONOTONIC_COUNT_SIZE + dwLength, |buffer|);
      valid := true;
      r := Ok(payload);
    }
  }
}
