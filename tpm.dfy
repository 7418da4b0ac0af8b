/**
 * The Tpm class (src/modules/tpm/src/lib/Tpm.cpp): the MMI entry points GetInfo and Get, and the helpers that
 * query the TPM through shell commands, the caps file of the tpm0 sysfs node and, as a fallback, /dev/tpm0.
 */
module TpmModule {
  import opened Common
  import opened Hex
  import opened Spaces
  import opened Regex
  import opened CapsText
  import opened Tpm2Utils

  /** Tpm::Status. */
  datatype Status = Unknown | TpmDetected | TpmNotDetected

  /** std::to_string(static_cast<int>(status)). */
  function StatusText(s: Status): (r: string)
    ensures |r| == 1 && '0' <= r[0] <= '2'
  {
    match s
    case Unknown => "0"
    case TpmDetected => "1"
    case TpmNotDetected => "2"
  }

  /** g_moduleInfo, without its terminating NUL. */
  const MODULE_INFO: string :=
    "{\n"
    + "    \"Name\": \"Tpm\",\n"
    + "    \"Description\": \"Provides functionality to remotely query the TPM on device\",\n"
    + "    \"Manufacturer\": \"Microsoft\",\n"
    + "    \"VersionMajor\": 1,\n"
    + "    \"VersionMinor\": 0,\n"
    + "    \"VersionInfo\": \"Nickel\",\n"
    + "    \"Components\": [\"Tpm\"],\n"
    + "    \"Lifetime\": 1,\n"
    + "    \"UserAccount\": 0}"

  /** What an MMI call leaves in its payload out-argument. */
  datatype PayloadWrite =
    | Untouched           // *payload is not assigned
    | NullPayload         // *payload = nullptr: the allocation failed
    | Payload(bytes: string) // *payload holds these bytes, with no terminating NUL appended, and *payloadSizeBytes is their count

  /** The status an MMI call returns and what it wrote to its payload. */
  datatype MmiReply = MmiReply(status: int, payload: PayloadWrite)

  /** A JSON string value: the text between double quotes, as Get writes it (nothing is escaped). */
  function Quoted(s: string): (q: string)
    ensures |q| == |s| + 2 && q[0] == '"' && q[|q| - 1] == '"' && q[1..|q| - 1] == s
  {
    "\"" + s + "\""
  }

  class Tpm {
    const maxPayloadSizeBytes: uint32
    var hasCapabilitiesFile: bool
    /** Tpm::RunCommand: the output a shell command prints, or "" when it fails. */
    const runCommand: string -> StdString

    constructor(maxPayloadSizeBytes: uint32, runCommand: string -> StdString)
      ensures this.maxPayloadSizeBytes == maxPayloadSizeBytes && this.runCommand == runCommand
      ensures hasCapabilitiesFile
    {
      this.maxPayloadSizeBytes := maxPayloadSizeBytes;
      this.runCommand := runCommand;
      hasCapabilitiesFile := true;
    }

    /**
     * Tpm::GetInfo. A null pointer argument is None (clientName) or false (payload, payloadSizeBytes);
     * allocSucceeds says whether the nothrow allocation of the payload returns memory.
     */
    static function GetInfo(clientName: Option<string>, hasPayload: bool, hasPayloadSizeBytes: bool,
                            allocSucceeds: bool): (r: MmiReply)
      ensures r.status == EINVAL <==> (clientName.None? || !hasPayload || !hasPayloadSizeBytes)
      ensures r.status == ENOMEM <==> (r.status != EINVAL && !allocSucceeds)
      ensures r.status == MMI_OK <==> r.payload.Payload?
      ensures r.status == MMI_OK || r.status == EINVAL || r.status == ENOMEM
      ensures r.payload.Payload? ==> r.payload.bytes == MODULE_INFO && |r.payload.bytes| == 277
      ensures r.status == EINVAL ==> r.payload == Untouched
      ensures r.status == ENOMEM ==> r.payload == NullPayload
    {
      if clientName.None? || !hasPayload || !hasPayloadSizeBytes then MmiReply(EINVAL, Untouched)
      else if !allocSucceeds then MmiReply(ENOMEM, NullPayload)
      else MmiReply(MMI_OK, Payload(MODULE_INFO))
    }

    /** What GetInfo reports does not depend on which client asks. */
    static lemma GetInfoIgnoresClientName(a: string, b: string, hasPayload: bool, hasPayloadSizeBytes: bool,
                                          allocSucceeds: bool)
      ensures GetInfo(Some(a), hasPayload, hasPayloadSizeBytes, allocSucceeds) ==
              GetInfo(Some(b), hasPayload, hasPayloadSizeBytes, allocSucceeds)
    {
    }

    /** The output GetStatus searches: that of the tpm listing, or of the tpmrm listing when the first is empty. */
    function ProbeOutput(): (output: string)
      ensures runCommand(GET_TPM_DETECTED) != "" ==> output == runCommand(GET_TPM_DETECTED)
      ensures runCommand(GET_TPM_DETECTED) == "" ==> output == runCommand(GET_TPMRM_DETECTED)
    {
      var output := runCommand(GET_TPM_DETECTED);
      if output == "" then runCommand(GET_TPMRM_DETECTED) else output
    }

    /** Tpm::GetStatus: detected exactly when some /dev/tpm[rm]*[0-9] occurs in the listing; never Unknown. */
    function GetStatus(): (s: Status)
      ensures s != Unknown
      ensures s == TpmDetected <==> exists a: nat, e: nat :: Matches(ProbeOutput(), a, TpmDevicePattern, e)
    {
      ListsTpmDeviceIffMatch(ProbeOutput());
      if ListsTpmDevice(ProbeOutput()) then TpmDetected else TpmNotDetected
    }

    /**
     * Tpm::Trim: erases leading spaces one at a time, then trailing ones from `end` = size() - 1. On a non-empty
     * string of spaces only, the first loop empties it, `end` wraps to npos and erase(npos, ...) throws.
     */
    method Trim(str: StdString) returns (r: Outcome<string>)
      ensures r == if str != "" && AllSpaces(str) then ThrewOutOfRange else Returned(TrimSpaces(str))
    {
      if |str| == 0 {
        assert TrimSpaces(str) == "";
        return Returned(str);
      }
      var s := EraseLeadingSpaces(str);
      DropLeadingEmptyIffAllSpaces(str);
      if s != "" {
        DropTrailingKeepsNonSpaceStart(s);
      }
      r := EraseTrailingSpaces(s);
    }

    /** The first loop of Tpm::Trim: erase(0, 1) while find(" ") == 0. */
    static method EraseLeadingSpaces(str: StdString) returns (s: StdString)
      ensures s == DropLeadingSpaces(str)
    {
      s := str;
      FindSpaceAtStart(s);
      while Find(s, ' ') == 0
        invariant Find(s, ' ') == 0 <==> s != "" && s[0] == ' '
        invariant DropLeadingSpaces(s) == DropLeadingSpaces(str)
        decreases |s|
      {
        assert DropLeadingSpaces(s[1..]) == DropLeadingSpaces(s);
        s := s[1..];
        FindSpaceAtStart(s);
      }
      assert s == "" || s[0] != ' ';
    }

    /**
     * The second loop of Tpm::Trim: erase(end, end + 1) and end-- while rfind(" ") == end, from end = size() - 1.
     * Once the string is empty, end is npos, rfind(" ") is npos too, and erase(npos, ...) throws.
     */
    static method EraseTrailingSpaces(str: StdString) returns (r: Outcome<string>)
      ensures r == if DropTrailingSpaces(str) == "" then ThrewOutOfRange else Returned(DropTrailingSpaces(str))
    {
      var s := str;
      var end: int := if |s| == 0 then NPOS else |s| - 1;
      RFindSpaceAtEnd(s);
      while RFind(s, ' ') == end
        invariant end == if s == "" then NPOS else |s| - 1
        invariant RFind(s, ' ') == end <==> s == "" || s[|s| - 1] == ' '
        invariant DropTrailingSpaces(s) == DropTrailingSpaces(str)
        decreases |s|
      {
        if end > |s| {
          return ThrewOutOfRange;
        }
        s := s[..end];
        end := if end == 0 then NPOS else end - 1;
        RFindSpaceAtEnd(s);
      }
      return Returned(s);
    }

    /**
     * Tpm::HexToText: decodes pairs of hex digits into chars. A low digit that is not hex empties the result;
     * the high digit is multiplied by 16 in an unsigned char, so it never reads as the 0xFF error value.
     */
    method HexToText(s: string) returns (r: string)
      ensures r == HexToTextResult(s)
    {
      var result := "";
      if |s| % 2 == 0 {
        var len := |s| / 2;
        var i := 0;
        while i < len
          invariant 0 <= i <= len && |result| == i
          invariant forall k :: 0 <= k < i ==> IsHexDigit(s[2 * k + 1]) && result[k] == PairByte(s[2 * k], s[2 * k + 1]) as char
        {
          var c1 := (Decode(s[2 * i]) * 16) % 0x100;
          var c2 := Decode(s[2 * i + 1]);
          TruncatedHighNibble(Decode(s[2 * i]));
          if c1 != 0xFF && c2 != 0xFF {
            assert c1 + c2 == PairByte(s[2 * i], s[2 * i + 1]);
            result := result + [(c1 + c2) as char];
          } else {
            assert !LowDigitsValid(s) by {
              assert (2 * i + 1) % 2 == 1;
            }
            result := "";
            break;
          }
          i := i + 1;
        }
        if i == len {
          assert LowDigitsValid(s) by {
            forall j | 0 <= j < |s| && j % 2 == 1
              ensures IsHexDigit(s[j])
            {
              assert j == 2 * (j / 2) + 1;
            }
          }
          forall k | 0 <= k < len
            ensures result[k] == HexToTextResult(s)[k]
          {
            HexToTextResultAt(s, k);
          }
          assert |HexToTextResult(s)| == len;
        }
      }
      r := result;
    }

    /** What `cat` of the tpm0 caps file prints. */
    function Caps(): StdString
    {
      runCommand(GET_TPM_CAPABILITIES)
    }

    /** Tpm::GetVersionFromCapabilitiesFile: never throws, since the version line never consists of spaces only. */
    method GetVersionFromCapabilitiesFile() returns (version: string)
      ensures version == VersionFromCaps(Caps())
    {
      version := "";
      var commandOutput := runCommand(GET_TPM_CAPABILITIES);
      if commandOutput != "" {
        var found := Search(commandOutput, VersionLabel);
        if found.Some? {
          var tpmProperties: StdString := commandOutput[found.value.1..];
          var k := Find(tpmProperties, '\n');
          var tpmVersion := tpmProperties[..if k < |tpmProperties| then k else |tpmProperties|];
          FirstLineIsSubstrToFind(tpmProperties);
          VersionLineStartsWithNonBlank(commandOutput);
          assert tpmVersion != "" ==> tpmVersion[0] != ' ';
          var trimmed := Trim(tpmVersion);
          version := trimmed.value;
        }
      }
    }

    /** Tpm::GetManufacturerFromCapabilitiesFile: the exception Trim may throw propagates. */
    method GetManufacturerFromCapabilitiesFile() returns (manufacturer: Outcome<string>)
      ensures manufacturer == ManufacturerFromCaps(Caps())
    {
      manufacturer := Returned("");
      var commandOutput := runCommand(GET_TPM_CAPABILITIES);
      if commandOutput != "" {
        var found := Search(commandOutput, ManufacturerLabel);
        if found.Some? {
          var tpmProperties: StdString := commandOutput[found.value.1..];
          var k := Find(tpmProperties, '\n');
          var line := tpmProperties[..if k < |tpmProperties| then k else |tpmProperties|];
          FirstLineIsSubstrToFind(tpmProperties);
          assert TextAfter(commandOutput, ManufacturerLabel) == Some(line);
          var tpmManufacturer := HexToText(line);
          manufacturer := Trim(tpmManufacturer);
          assert manufacturer == DecodeAndTrim(line);
        }
      }
    }

    /** The status and data Get has computed before its payload-size check. */
    function ObjectData(componentName: string, objectName: string, device: DeviceExchange)
      : (r: Outcome<(int, string)>)
      reads this
      ensures r.ThrewOutOfRange? ==> componentName == TPM_COMPONENT && objectName == TPM_MANUFACTURER
      ensures r.Returned? && r.value.0 == MMI_OK ==> componentName == TPM_COMPONENT && r.value.1 != ""
    {
      if componentName != TPM_COMPONENT then Returned((EINVAL, ""))
      else if objectName == TPM_STATUS then Returned((MMI_OK, StatusText(GetStatus())))
      else if objectName == TPM_VERSION && hasCapabilitiesFile then
        var version := VersionFromCaps(Caps());
        Returned((if version == "" then DeviceStatus(device) else MMI_OK, Quoted(version)))
      else if objectName == TPM_MANUFACTURER && hasCapabilitiesFile then
        match ManufacturerFromCaps(Caps())
        case ThrewOutOfRange => ThrewOutOfRange
        case Returned(manufacturer) =>
          Returned((if manufacturer == "" then DeviceStatus(device) else MMI_OK, Quoted(manufacturer)))
      else Returned((EINVAL, ""))
    }

    /** What Get returns and writes: an oversized payload is refused with E2BIG, else the data is copied out. */
    function GetReply(componentName: string, objectName: string, device: DeviceExchange, allocSucceeds: bool)
      : Outcome<MmiReply>
      reads this
    {
      match ObjectData(componentName, objectName, device)
      case ThrewOutOfRange => ThrewOutOfRange
      case Returned((status, data)) =>
        if maxPayloadSizeBytes > 0 && |data| > maxPayloadSizeBytes then Returned(MmiReply(E2BIG, Untouched))
        else if allocSucceeds then Returned(MmiReply(status, Payload(data)))
        else Returned(MmiReply(ENOMEM, NullPayload))
    }

    /**
     * Tpm::Get. The device exchange and the allocation's success are inputs; a C++ exception leaving Get is
     * ThrewOutOfRange.
     */
    method Get(componentName: string, objectName: string, device: DeviceExchange, allocSucceeds: bool)
      returns (out: Outcome<MmiReply>)
      ensures out == GetReply(componentName, objectName, device, allocSucceeds)
    {
      var status := MMI_OK;
      var data := "";
      if componentName == TPM_COMPONENT {
        if objectName == TPM_STATUS {
          data := StatusText(GetStatus());
        } else if objectName == TPM_VERSION && hasCapabilitiesFile {
          var tpmProperty := "";
          var version := GetVersionFromCapabilitiesFile();
          if version == "" {
            // The property read from the device only feeds a log line.
            status, tpmProperty := GetTpmPropertyFromDeviceFile(objectName, tpmProperty, device);
          }
          data := Quoted(version);
        } else if objectName == TPM_MANUFACTURER && hasCapabilitiesFile {
          var tpmProperty := "";
          var manufacturer := GetManufacturerFromCapabilitiesFile();
          if manufacturer.ThrewOutOfRange? {
            return ThrewOutOfRange;
          }
          if manufacturer.value == "" {
            status, tpmProperty := GetTpmPropertyFromDeviceFile(objectName, tpmProperty, device);
          }
          data := Quoted(manufacturer.value);
        } else {
          status := EINVAL;
        }
      } else {
        status := EINVAL;
      }
      if maxPayloadSizeBytes > 0 && |data| > maxPayloadSizeBytes {
        status := E2BIG;
        out := Returned(MmiReply(status, Untouched));
      } else if allocSucceeds {
        out := Returned(MmiReply(status, Payload(data)));
      } else {
        status := ENOMEM;
        out := Returned(MmiReply(status, NullPayload));
      }
    }

    /**
     * A payload Get writes never exceeds a nonzero maximum, and the payload is left unassigned only when the
     * data was refused with E2BIG.
     */
    lemma GetPayloadFitsLimit(componentName: string, objectName: string, device: DeviceExchange, allocSucceeds: bool)
      ensures var out := GetReply(componentName, objectName, device, allocSucceeds);
        out.Returned? && out.value.payload.Payload? && maxPayloadSizeBytes > 0 ==>
          |out.value.payload.bytes| <= maxPayloadSizeBytes
      ensures var out := GetReply(componentName, objectName, device, allocSucceeds);
        out.Returned? && out.value.payload == Untouched ==> out.value.status == E2BIG
      ensures var od := ObjectData(componentName, objectName, device);
        od.Returned? && maxPayloadSizeBytes > 0 && |od.value.1| > maxPayloadSizeBytes ==>
          GetReply(componentName, objectName, device, allocSucceeds) == Returned(MmiReply(E2BIG, Untouched))
    {
      match ObjectData(componentName, objectName, device)
      case ThrewOutOfRange =>
      case Returned((status, data)) =>
    }

    /** tpmStatus reports "1" exactly when the listing names a TPM device, else "2". */
    lemma GetStatusObject(device: DeviceExchange)
      ensures GetReply(TPM_COMPONENT, TPM_STATUS, device, true) ==
        Returned(MmiReply(MMI_OK, Payload(if ListsTpmDevice(ProbeOutput()) then "1" else "2")))
    {
      assert |StatusText(GetStatus())| == 1;
    }

    /**
     * An unknown component or object, or a version or manufacturer query once the caps file is known to be
     * missing, is EINVAL, yet an empty payload is still written.
     */
    lemma GetUnknownNameIsInvalid(componentName: string, objectName: string, device: DeviceExchange)
      requires componentName != TPM_COMPONENT ||
        (objectName != TPM_STATUS && (objectName != TPM_VERSION || !hasCapabilitiesFile) &&
         (objectName != TPM_MANUFACTURER || !hasCapabilitiesFile))
      ensures GetReply(componentName, objectName, device, true) == Returned(MmiReply(EINVAL, Payload("")))
      ensures GetReply(componentName, objectName, device, false) == Returned(MmiReply(ENOMEM, NullPayload))
    {
    }

    /**
     * tpmVersion reports the quoted version of the caps file. Only when that is empty is the device queried, and
     * then only its status is kept: the reported version stays empty.
     */
    lemma GetVersionObject(device: DeviceExchange)
      requires hasCapabilitiesFile
      requires maxPayloadSizeBytes == 0 || |VersionFromCaps(Caps())| + 2 <= maxPayloadSizeBytes
      ensures var version := VersionFromCaps(Caps());
        GetReply(TPM_COMPONENT, TPM_VERSION, device, true) ==
          Returned(MmiReply(if version == "" then DeviceStatus(device) else MMI_OK, Payload(Quoted(version))))
    {
    }

    /**
     * tpmManufacturer reports the caps file's manufacturer m quoted, or rethrows Trim's exception. Only when m is
     * empty is the device queried, and then only its status is kept: the reported manufacturer stays empty.
     */
    lemma GetManufacturerObject(device: DeviceExchange)
      requires hasCapabilitiesFile
      ensures match ManufacturerFromCaps(Caps())
        case ThrewOutOfRange => GetReply(TPM_COMPONENT, TPM_MANUFACTURER, device, true) == ThrewOutOfRange
        case Returned(m) => (maxPayloadSizeBytes == 0 || |m| + 2 <= maxPayloadSizeBytes) ==>
          GetReply(TPM_COMPONENT, TPM_MANUFACTURER, device, true) ==
            Returned(MmiReply(if m == "" then DeviceStatus(device) else MMI_OK, Payload(Quoted(m))))
    {
    }

    /** Whatever the device answers, Get writes the same payload: the property read from it is discarded. */
    lemma GetPayloadIgnoresDevice(componentName: string, objectName: string, device1: DeviceExchange,
                                  device2: DeviceExchange, allocSucceeds: bool)
      ensures var out1 := GetReply(componentName, objectName, device1, allocSucceeds);
        var out2 := GetReply(componentName, objectName, device2, allocSucceeds);
        out1.Returned? == out2.Returned? && (out1.Returned? ==> out1.value.payload == out2.value.payload)
    {
    }

    /** Get throws only for a manufacturer query whose decoded caps line is spaces only. */
    lemma GetThrowsOnlyOnBlankManufacturer(componentName: string, objectName: string, device: DeviceExchange,
                                           allocSucceeds: bool)
      ensures GetReply(componentName, objectName, device, allocSucceeds).ThrewOutOfRange? <==>
        componentName == TPM_COMPONENT && objectName == TPM_MANUFACTURER && hasCapabilitiesFile &&
        ManufacturerFromCaps(Caps()).ThrewOutOfRange?
    {
    }
  }
}
