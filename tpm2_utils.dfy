/**
 * Tpm2Utils (src/modules/tpm/src/lib/Tpm2Utils.h): the TPM2_GetCapability request sent to /dev/tpm0, the checked
 * big-endian decoding of response fields, and the scan of the response's list of TPMS_TAGGED_PROPERTY entries.
 * The request and response layout is that of the TCG TPM 2.0 Library Specification, Part 3, section 30.2
 * (TPM2_GetCapability); the property tags are those of Part 2, section 6.13 (TPM_PT).
 */
module Tpm2Utils {
  import opened Common

  /** The header redefines INT_MAX with one hex digit fewer than the C limit: 0x7FFFFFF, not 0x7FFFFFFF. */
  const INT_MAX: int := 0x7FFFFFF
  const TPM_RESPONSE_MAX_SIZE: int := 4096

  const TPM_ST_NO_SESSIONS: int := 0x8001
  const TPM_CC_GET_CAPABILITY: int := 0x17A
  const TPM_CAP_TPM_PROPERTIES: int := 6
  const TPM_PT_FAMILY_INDICATOR: int := 0x100
  /** TPM_PT_FIXED + 5 */
  const TPM_PT_MANUFACTURER: int := 0x105

  /**
   * Offset of the first TPMS_TAGGED_PROPERTY in a TPM2_GetCapability response: tag (2), responseSize (4),
   * responseCode (4), moreData (1), capability (4) and the property count (4) come before it. Each entry is a
   * 4-byte property tag followed by a 4-byte value.
   */
  const FIRST_PROPERTY_OFFSET: int := 0x13
  /** The scan stops before this offset (TPM_RESPONSE_MAX_SIZE - 8). */
  const SCAN_END: int := TPM_RESPONSE_MAX_SIZE - 8

  /** The unsigned number a byte sequence spells, most significant byte first. */
  function BigEndian(bs: seq<byte>): nat
  {
    if bs == [] then 0 else BigEndian(bs[..|bs| - 1]) * 256 + bs[|bs| - 1]
  }

  /** The same number as a sum: byte i weighs 256^(|bs| - 1 - i). */
  function BigEndianSum(bs: seq<byte>): nat
  {
    if bs == [] then 0 else bs[0] * Pow256(|bs| - 1) + BigEndianSum(bs[1..])
  }

  lemma {:induction false} BigEndianBound(bs: seq<byte>)
    ensures BigEndian(bs) < Pow256(|bs|)
  {
    if bs != [] {
      var init := bs[..|bs| - 1];
      BigEndianBound(init);
      assert BigEndian(bs) <= (Pow256(|init|) - 1) * 256 + 255;
    }
  }

  lemma {:induction false} BigEndianSumSnoc(bs: seq<byte>, x: byte)
    ensures BigEndianSum(bs + [x]) == BigEndianSum(bs) * 256 + x
  {
    if bs != [] {
      assert (bs + [x])[1..] == bs[1..] + [x];
      BigEndianSumSnoc(bs[1..], x);
      var a, p, t := bs[0] as int, Pow256(|bs| - 1), BigEndianSum(bs[1..]);
      assert Pow256(|bs|) == 256 * p;
      assert BigEndianSum(bs + [x]) == a * (256 * p) + t * 256 + x;
      assert a * (256 * p) == (a * p) * 256;
    } else {
      assert bs + [x] == [x];
    }
  }

  /** The fold and the sum agree. */
  lemma {:induction false} BigEndianIsSum(bs: seq<byte>)
    ensures BigEndian(bs) == BigEndianSum(bs)
  {
    if bs != [] {
      var init := bs[..|bs| - 1];
      BigEndianIsSum(init);
      assert bs == init + [bs[|bs| - 1]];
      BigEndianSumSnoc(init, bs[|bs| - 1]);
    }
  }

  /** The least significant byte of the number is the last byte. */
  lemma BigEndianLowByte(bs: seq<byte>)
    requires bs != []
    ensures BigEndian(bs) % 256 == bs[|bs| - 1]
  {
  }

  /** A slice of a + b that lies within b. */
  lemma SliceOfAppend(a: seq<byte>, b: seq<byte>, i: nat, j: nat)
    requires |a| <= i <= j <= |a| + |b|
    ensures (a + b)[i..j] == b[i - |a|..j - |a|]
  {
  }

  /** A slice of a + b that lies within a. */
  lemma SliceOfAppendLeft(a: seq<byte>, b: seq<byte>, i: nat, j: nat)
    requires i <= j <= |a|
    ensures (a + b)[i..j] == a[i..j]
  {
  }

  /** The value of a 2-byte field holding a, b. */
  lemma TwoBytes(a: byte, b: byte)
    ensures BigEndian([a, b]) == a as int * 0x100 + b as int
  {
    assert [a][..0] == [];
    assert BigEndian([a]) == a as int;
    assert [a, b][..1] == [a];
  }

  /** The value of a 4-byte field holding a, b, c, d. */
  lemma FourBytes(a: byte, b: byte, c: byte, d: byte)
    ensures BigEndian([a, b, c, d]) == ((a as int * 0x100 + b as int) * 0x100 + c as int) * 0x100 + d as int
  {
    assert [a, b, c, d][..3] == [a, b, c];
    assert [a, b, c][..2] == [a, b];
    TwoBytes(a, b);
  }

  /** g_getTpmProperties: TPM2_GetCapability(TPM_CAP_TPM_PROPERTIES, TPM_PT_FAMILY_INDICATOR, 0x66), no sessions. */
  function GetTpmPropertiesRequest(): (r: seq<byte>)
    ensures |r| == 22
    ensures BigEndian(r[0..2]) == TPM_ST_NO_SESSIONS
    ensures BigEndian(r[2..6]) == |r|
    ensures BigEndian(r[6..10]) == TPM_CC_GET_CAPABILITY
    ensures BigEndian(r[10..14]) == TPM_CAP_TPM_PROPERTIES
    ensures BigEndian(r[14..18]) == TPM_PT_FAMILY_INDICATOR
    ensures BigEndian(r[18..22]) == 0x66
  {
    var tag: seq<byte> := [0x80, 0x01];
    var size: seq<byte> := [0x00, 0x00, 0x00, 0x16];
    var command: seq<byte> := [0x00, 0x00, 0x01, 0x7A];
    var capability: seq<byte> := [0x00, 0x00, 0x00, 0x06];
    var property: seq<byte> := [0x00, 0x00, 0x01, 0x00];
    var count: seq<byte> := [0x00, 0x00, 0x00, 0x66];
    var h1 := tag + size;
    var h2 := h1 + command;
    var h3 := h2 + capability;
    var h4 := h3 + property;
    var r := h4 + count;
    SliceOfAppend(h4, count, 18, 22);
    SliceOfAppend(h3, property, 14, 18);
    SliceOfAppendLeft(h4, count, 14, 18);
    SliceOfAppend(h2, capability, 10, 14);
    SliceOfAppendLeft(h3, property, 10, 14);
    SliceOfAppendLeft(h4, count, 10, 14);
    SliceOfAppend(h1, command, 6, 10);
    SliceOfAppendLeft(h2, capability, 6, 10);
    SliceOfAppendLeft(h3, property, 6, 10);
    SliceOfAppendLeft(h4, count, 6, 10);
    SliceOfAppend(tag, size, 2, 6);
    SliceOfAppendLeft(h1, command, 2, 6);
    SliceOfAppendLeft(h2, capability, 2, 6);
    SliceOfAppendLeft(h3, property, 2, 6);
    SliceOfAppendLeft(h4, count, 2, 6);
    SliceOfAppendLeft(tag, size, 0, 2);
    SliceOfAppendLeft(h1, command, 0, 2);
    SliceOfAppendLeft(h2, capability, 0, 2);
    SliceOfAppendLeft(h3, property, 0, 2);
    SliceOfAppendLeft(h4, count, 0, 2);
    assert tag[0..2] == tag && size[0..4] == size && command[0..4] == command;
    assert capability[0..4] == capability && property[0..4] == property && count[0..4] == count;
    TwoBytes(0x80, 0x01);
    FourBytes(0x00, 0x00, 0x00, 0x16);
    FourBytes(0x00, 0x00, 0x01, 0x7A);
    FourBytes(0x00, 0x00, 0x00, 0x06);
    FourBytes(0x00, 0x00, 0x01, 0x00);
    FourBytes(0x00, 0x00, 0x00, 0x66);
    r
  }

  /** The argument checks of UnsignedInt8ToUnsignedInt64, in the order it makes them; any failure is EINVAL. */
  predicate ConversionRejected(bufferIsNull: bool, outputIsNull: bool, size: int, offset: int, length: int) {
    || bufferIsNull
    || outputIsNull
    || offset >= size
    || INT_MAX < size
    || length == 0
    || length > size - offset
    || length > 8
  }

  /**
   * Tpm2Utils::UnsignedInt8ToUnsignedInt64: reads `length` bytes of `buffer` from `offset` as a big-endian
   * number. `output` is the pointer argument: None is a null pointer, Some(v) a pointer to a cell holding v;
   * `outputAfter` is what that cell holds on return.
   */
  method UnsignedInt8ToUnsignedInt64(buffer: array?<byte>, size: uint32, offset: uint32, length: uint32,
                                     output: Option<uint64>)
    returns (status: int, outputAfter: Option<uint64>)
    requires buffer != null ==> size <= buffer.Length
    ensures status == MMI_OK || status == EINVAL
    ensures status == EINVAL <==> ConversionRejected(buffer == null, output == None, size, offset, length)
    ensures outputAfter.None? <==> output.None?
    ensures status != MMI_OK ==> outputAfter == output
    ensures status == MMI_OK ==>
      && buffer != null
      && offset + length <= size
      && outputAfter == Some(BigEndian(buffer[offset..offset + length]))
      && outputAfter.value < Pow256(length)
  {
    status := MMI_OK;
    outputAfter := output;
    if buffer == null {
      status := EINVAL;
    } else if output == None {
      status := EINVAL;
    } else if offset >= size {
      status := EINVAL;
    } else if INT_MAX < size {
      status := EINVAL;
    } else if length == 0 {
      status := EINVAL;
    } else if length > size - offset {
      status := EINVAL;
    } else if 8 < length {
      status := EINVAL;
    } else {
      outputAfter := Some(0);
      var temp: uint64 := 0;
      var i: uint32 := 0;
      while i < length
        invariant i <= length
        invariant temp == BigEndian(buffer[offset..offset + i])
        invariant temp < Pow256(i)
      {
        Pow256Monotone(i + 1, 8);
        assert buffer[offset..offset + i + 1][..i] == buffer[offset..offset + i];
        temp := temp * 256 + buffer[offset + i];
        i := i + 1;
      }
      outputAfter := Some(temp);
    }
  }

  /** What `read` leaves in the 4096-byte response buffer: the bytes it returned, then the memset 0xFF filler. */
  function ResponseBuffer(response: seq<byte>): (buf: seq<byte>)
    requires |response| <= TPM_RESPONSE_MAX_SIZE
    ensures |buf| == TPM_RESPONSE_MAX_SIZE
  {
    response + seq(TPM_RESPONSE_MAX_SIZE - |response|, _ => 0xFF)
  }

  /** The property tag of the entry at offset n. */
  function PropertyKeyAt(buf: seq<byte>, n: nat): nat
    requires n + 4 <= |buf|
  {
    BigEndian(buf[n..n + 4])
  }

  /** The scan stops at a tag for TPM_VERSION's family indicator or at TPM_MANUFACTURER's manufacturer tag. */
  predicate Wanted(objectName: string, key: int) {
    || (key == TPM_PT_FAMILY_INDICATOR && objectName == TPM_VERSION)
    || (key == TPM_PT_MANUFACTURER && objectName == TPM_MANUFACTURER)
  }

  /** An entry offset the scan visits: 0x13 + 8k below TPM_RESPONSE_MAX_SIZE - 8. */
  predicate IsEntryOffset(n: int) {
    FIRST_PROPERTY_OFFSET <= n < SCAN_END && (n - FIRST_PROPERTY_OFFSET) % 8 == 0
  }

  /** At every offset the scan visits, the conversion of the 4-byte tag is accepted. */
  lemma ScanConversionNeverRejected(n: int)
    requires IsEntryOffset(n)
    ensures !ConversionRejected(false, false, TPM_RESPONSE_MAX_SIZE, n, 4)
    ensures n + 8 <= TPM_RESPONSE_MAX_SIZE
  {
  }

  /** The first visited entry from n on whose tag is wanted. */
  function FirstWanted(buf: seq<byte>, objectName: string, n: nat): (r: Option<nat>)
    requires |buf| == TPM_RESPONSE_MAX_SIZE
    ensures r.Some? ==> n <= r.value < SCAN_END && (r.value - n) % 8 == 0
    ensures r.Some? ==> Wanted(objectName, PropertyKeyAt(buf, r.value))
    decreases TPM_RESPONSE_MAX_SIZE - n
  {
    if n >= SCAN_END then None
    else if Wanted(objectName, PropertyKeyAt(buf, n)) then Some(n)
    else FirstWanted(buf, objectName, n + 8)
  }

  /** One step of the scan: the entry at n is the answer when it is wanted, otherwise the search moves on. */
  lemma FirstWantedStep(buf: seq<byte>, objectName: string, n: nat)
    requires |buf| == TPM_RESPONSE_MAX_SIZE && n < SCAN_END
    ensures FirstWanted(buf, objectName, n) ==
      if Wanted(objectName, PropertyKeyAt(buf, n)) then Some(n) else FirstWanted(buf, objectName, n + 8)
  {
  }

  /** FirstWanted finds the first wanted entry of the stepped scan, and None only when there is none. */
  lemma {:induction false} FirstWantedIsFirst(buf: seq<byte>, objectName: string, n: nat, m: nat)
    requires |buf| == TPM_RESPONSE_MAX_SIZE
    requires n <= m < SCAN_END && (m - n) % 8 == 0
    requires Wanted(objectName, PropertyKeyAt(buf, m))
    ensures FirstWanted(buf, objectName, n).Some? && FirstWanted(buf, objectName, n).value <= m
    decreases m - n
  {
    if n < m && !Wanted(objectName, PropertyKeyAt(buf, n)) {
      FirstWantedIsFirst(buf, objectName, n + 8, m);
    }
  }

  /** The C string a fixed-size byte array holds: its bytes up to the first NUL. */
  function CString(bs: seq<byte>): (t: string)
    ensures |t| <= |bs| && '\0' !in t
    ensures forall i :: 0 <= i < |t| ==> t[i] as int == bs[i]
    ensures |t| < |bs| ==> bs[|t|] == 0
  {
    if bs == [] || bs[0] == 0 then "" else [bs[0] as char] + CString(bs[1..])
  }

  /** The property text the scan returns for a response, or None when no entry matches. */
  function ScanResult(response: seq<byte>, objectName: string): (r: Option<string>)
    requires |response| <= TPM_RESPONSE_MAX_SIZE
    ensures r.Some? ==> |r.value| <= 4 && '\0' !in r.value
  {
    var buf := ResponseBuffer(response);
    match FirstWanted(buf, objectName, FIRST_PROPERTY_OFFSET)
    case None => None
    case Some(n) => Some(CString(buf[n + 4..n + 8]))
  }

  /** Filler bytes can never form a wanted tag: any entry whose tag reaches past the response is skipped. */
  lemma FillerNeverWanted(response: seq<byte>, objectName: string, n: nat)
    requires |response| <= TPM_RESPONSE_MAX_SIZE && n + 4 <= TPM_RESPONSE_MAX_SIZE && |response| < n + 4
    ensures !Wanted(objectName, PropertyKeyAt(ResponseBuffer(response), n))
  {
    var buf := ResponseBuffer(response);
    BigEndianLowByte(buf[n..n + 4]);
    assert buf[n..n + 4][3] == buf[n + 3] == 0xFF;
  }

  /** So a match is always a tag that the device actually sent. */
  lemma ScanMatchesOnlySentTags(response: seq<byte>, objectName: string)
    requires |response| <= TPM_RESPONSE_MAX_SIZE
    ensures var r := FirstWanted(ResponseBuffer(response), objectName, FIRST_PROPERTY_OFFSET);
      r.Some? ==> r.value + 4 <= |response|
  {
    var r := FirstWanted(ResponseBuffer(response), objectName, FIRST_PROPERTY_OFFSET);
    if r.Some? && |response| < r.value + 4 {
      FillerNeverWanted(response, objectName, r.value);
      assert false;
    }
  }

  /** A response too short to hold the first tag never yields a property. */
  lemma ShortResponseYieldsNothing(response: seq<byte>, objectName: string)
    requires |response| < FIRST_PROPERTY_OFFSET + 4
    ensures ScanResult(response, objectName) == None
  {
    ScanMatchesOnlySentTags(response, objectName);
  }

  /** What the open/write/read exchange with /dev/tpm0 does, as seen by GetTpmPropertyFromDeviceFile. */
  datatype DeviceExchange =
    | AllocationFails               // malloc of the response buffer returns null
    | OpenFails                     // open returns -1
    | WriteFails(errno: int)        // write returns -1 or a short count; errno as it is then
    | ReadFails(errno: int)         // read returns -1
    | Responds(response: DeviceResponse) // read returns these bytes

  /** What one read of at most TPM_RESPONSE_MAX_SIZE bytes can return. */
  type DeviceResponse = r: seq<byte> | |r| <= TPM_RESPONSE_MAX_SIZE

  function DeviceStatus(device: DeviceExchange): int
  {
    match device
    case AllocationFails => ENOMEM
    case OpenFails => ENOENT
    case WriteFails(errno) => errno
    case ReadFails(errno) => errno
    case Responds(_) => MMI_OK
  }

  /**
   * The loop of GetTpmPropertyFromDeviceFile over the response buffer: converts each entry's 4-byte tag, stops at
   * the first wanted one and copies its 4-byte value, cut at the first NUL, into the property.
   */
  method ScanTaggedProperties(buffer: array<byte>, objectName: string, tpmProperty: string) returns (property: string)
    requires buffer.Length == TPM_RESPONSE_MAX_SIZE
    ensures property == match FirstWanted(buffer[..], objectName, FIRST_PROPERTY_OFFSET)
                        case None => tpmProperty
                        case Some(n) => CString(buffer[n + 4..n + 8])
  {
    property := tpmProperty;
    ghost var buf := buffer[..];
    assert |buf| == TPM_RESPONSE_MAX_SIZE;
    var propertyKey: uint64 := 0;
    var n := FIRST_PROPERTY_OFFSET;
    while n < SCAN_END
      invariant FIRST_PROPERTY_OFFSET <= n <= SCAN_END + 8
      invariant FirstWanted(buf, objectName, FIRST_PROPERTY_OFFSET) == FirstWanted(buf, objectName, n)
      invariant property == tpmProperty
      decreases SCAN_END - n
    {
      var converted, key := UnsignedInt8ToUnsignedInt64(buffer, TPM_RESPONSE_MAX_SIZE, n, 4, Some(propertyKey));
      if converted != MMI_OK {
        break;
      }
      propertyKey := key.value;
      assert buffer[n..n + 4] == buf[n..n + 4];
      FirstWantedStep(buf, objectName, n);
      if Wanted(objectName, propertyKey) {
        property := CString(buffer[n + 4..n + 8]);
        return;
      }
      n := n + 8;
    }
  }

  /**
   * Tpm2Utils::GetTpmPropertyFromDeviceFile: sends the capability request, reads the response into a buffer
   * pre-filled with 0xFF and scans its tagged properties for the one objectName asks for. `property` is the
   * new value of the tpmProperty reference argument.
   */
  method GetTpmPropertyFromDeviceFile(objectName: string, tpmProperty: string, device: DeviceExchange)
    returns (status: int, property: string)
    ensures status == DeviceStatus(device)
    ensures property == if device.Responds? && ScanResult(device.response, objectName).Some?
                        then ScanResult(device.response, objectName).value else tpmProperty
  {
    status := MMI_OK;
    property := tpmProperty;
    if device.AllocationFails? {
      status := ENOMEM;
      return;
    }
    var buffer := new byte[TPM_RESPONSE_MAX_SIZE](_ => 0xFF);
    var request := GetTpmPropertiesRequest();
    match device {
      case OpenFails =>
        status := ENOENT;
      case WriteFails(errno) =>
        status := errno;
      case ReadFails(errno) =>
        status := errno;
      case Responds(response) =>
        forall i | 0 <= i < |response| {
          buffer[i] := response[i];
        }
        assert buffer[..] == ResponseBuffer(response);
        property := ScanTaggedProperties(buffer, objectName, tpmProperty);
    }
  }
}
