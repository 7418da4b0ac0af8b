# TPM query module of azure-osconfig, modelled in Dafny

The model covers the `Tpm` class of osconfig's TPM management module (MMI, "Management Module Interface"). It
answers three objects of the `Tpm` component:

- `tpmStatus` is "1" when `ls` lists a `/dev/tpm*` device and "2" otherwise.
- `tpmVersion` is the text after `TCG version:` in the `caps` file of the tpm0 sysfs node. It is trimmed and
  quoted.
- `tpmManufacturer` is the hex digits after `Manufacturer: 0x` in the same file. They are decoded to text, trimmed
  and quoted.

When the caps file gives nothing, `Get` falls back to `/dev/tpm0`. It sends a TPM2_GetCapability request and
scans the tagged properties of the response. The layout of the request and the response follows the TCG TPM 2.0
Library Specification, Part 3, section 30.2. The property tags follow Part 2, section 6.13.

Modules:

- `Common` holds the C-level integer types, the status codes, `std::string`'s `npos`, the component and object
  names of `Tpm.h`, `Option`, and `Outcome`. `Outcome` is a value or a thrown `std::out_of_range`.
- `Hex` models `Decode` and what `HexToText` computes. It is proved against a reference hex encoder.
- `Spaces` models `std::string::find`/`rfind` and what `Trim` computes.
- `Regex` is a small pattern language for three of the module's five regular expressions. It has a deterministic
  matcher that follows `std::regex_search`, proved against a declarative match relation: the first match found is
  the leftmost one and the longest one.
- `CapsText` covers the commands, the patterns, and what the two caps-file readers return.
- `Tpm2Utils` models `Tpm2Utils.h`: the request bytes, the checked big-endian decoding, and the property scan
  over the 4096-byte response buffer. The buffer is filled with 0xFF before the read.
- `TpmModule` holds the `Tpm` class. It has the MMI entry points `GetInfo` and `Get`, the imperative `Trim` and
  `HexToText`, and `GetStatus` and the two caps-file readers. `Get` is proved equal to the specification
  function `GetReply`, and lemmas about `GetReply` state what `Get` promises.

The model takes these as inputs:

- Shell commands are the class constant `runCommand`: command text to output, with "" when the command fails.
- The exchange with `/dev/tpm0` is a `DeviceExchange` value: allocation fails, open fails, write fails, read
  fails, or the device responds with some bytes.
- Whether a `new (std::nothrow)` allocation succeeds is a boolean parameter.
- A null pointer argument is `None` or `false`.

## Model

| member | source | states |
|---|---|---|
| Common.Pow256 | src/modules/tpm/src/lib/Tpm2Utils.h:77-81 | 256^n is positive; it is the weight of a byte shifted left n times by 8 bits |
| Hex.Decode | src/modules/tpm/src/lib/Tpm.cpp:210-226 | a char decodes to a value below 16 exactly when it is a hex digit of either case, and to 0xFF exactly when it is not |
| Hex.DecodeDigitChar | src/modules/tpm/src/lib/Tpm.cpp:210-226 | every nibble written as a digit of either case decodes back to the nibble |
| Hex.DigitCharDecode | src/modules/tpm/src/lib/Tpm.cpp:210-226 | every hex digit is the digit of its decoded value, in its own case |
| Hex.PairByte | src/modules/tpm/src/lib/Tpm.cpp:238-242 | the char a digit pair yields is below 0x200, and below 0x100 whenever the low digit is valid |
| Hex.TruncatedHighNibble | src/modules/tpm/src/lib/Tpm.cpp:238-240 | the high digit times 16, truncated to an unsigned char, keeps only the low nibble, so it is never the 0xFF error value |
| Hex.OddLengthYieldsEmpty | src/modules/tpm/src/lib/Tpm.cpp:228-253 | an odd-length input becomes the empty string |
| Hex.InvalidLowDigitYieldsEmpty | src/modules/tpm/src/lib/Tpm.cpp:238-248 | any non-hex char in a low-digit position empties the whole result |
| Hex.HexToTextResult | src/modules/tpm/src/lib/Tpm.cpp:228-253 | the text HexToText leaves is either empty or exactly one char per digit pair |
| Hex.HexToTextResultAt | src/modules/tpm/src/lib/Tpm.cpp:231-243 | when every low digit is valid, the result has one char per pair, and char j comes from digits 2j and 2j + 1 |
| Hex.PairByteOfDigits | src/modules/tpm/src/lib/Tpm.cpp:238-242 | two valid digits make the char 16 times the high digit plus the low digit |
| Hex.DecodesEveryPair | src/modules/tpm/src/lib/Tpm.cpp:231-243 | on an even-length string of hex digits, each output char is 16 times the high digit plus the low digit |
| Hex.InvalidHighDigitReadAsF | src/modules/tpm/src/lib/Tpm.cpp:238-243 | a non-hex high digit is not rejected: the pair still decodes, as 0xF0 plus the low digit |
| Hex.HexRoundTrip | src/modules/tpm/src/lib/Tpm.cpp:228-253 | decoding the hex encoding of any byte string gives that string back, for either digit case |
| Hex.EncodeOfDecoded | src/modules/tpm/src/lib/Tpm.cpp:228-253 | an even-length string of digits of one case is the hex encoding of its decoding |
| Hex.PairReencodes | src/modules/tpm/src/lib/Tpm.cpp:238-242 | the byte two digits of one case decode to is below 0x100 and is written back as those same two digits |
| Spaces.Find | src/modules/tpm/src/lib/Tpm.cpp:196 | find returns the first index of the char, or npos exactly when the char does not occur |
| Spaces.RFind | src/modules/tpm/src/lib/Tpm.cpp:202 | rfind returns the last index of the char, or npos exactly when the char does not occur |
| Spaces.DropLeadingSpaces | src/modules/tpm/src/lib/Tpm.cpp:196-199 | the result is a suffix of the input and does not start with ' ' |
| Spaces.DropLeadingCutsSpaces | src/modules/tpm/src/lib/Tpm.cpp:196-199 | everything the leading-space loop cuts off is ' ' |
| Spaces.DropTrailingSpaces | src/modules/tpm/src/lib/Tpm.cpp:201-206 | the result is a prefix of the input and does not end with ' ' |
| Spaces.DropTrailingCutsSpaces | src/modules/tpm/src/lib/Tpm.cpp:201-206 | everything the trailing-space loop cuts off is ' ' |
| Spaces.TrimSpaces | src/modules/tpm/src/lib/Tpm.cpp:192-208 | the trimmed text is no longer than the input and neither starts nor ends with ' ' |
| Spaces.DropLeadingEmptyIffAllSpaces | src/modules/tpm/src/lib/Tpm.cpp:194-206 | the leading-space loop empties the string exactly when it is spaces only |
| Spaces.DropTrailingKeepsNonSpaceStart | src/modules/tpm/src/lib/Tpm.cpp:201-206 | the trailing-space loop never empties a string that starts with a non-space |
| Spaces.TrimSpacesIsInnerSlice | src/modules/tpm/src/lib/Tpm.cpp:192-208 | the trimmed text is the contiguous slice between a run of leading spaces and a run of trailing spaces, and it neither starts nor ends with ' ' |
| Spaces.TrimSpacesAddsNothing | src/modules/tpm/src/lib/Tpm.cpp:192-208 | trimming introduces no char: a char absent from the input is absent from the result |
| Spaces.TrimSpacesIdempotent | src/modules/tpm/src/lib/Tpm.cpp:192-208 | trimming twice is trimming once |
| Spaces.TrimSpacesKeepsOtherBlanks | src/modules/tpm/src/lib/Tpm.cpp:196-206 | a string that neither starts nor ends with ' ' is unchanged, even if tabs or line breaks surround it |
| Regex.RunEnd | src/modules/tpm/src/lib/Tpm.cpp:24-26 | a greedy repetition consumes class chars up to the first char outside the class |
| Regex.Matches | src/modules/tpm/src/lib/Tpm.cpp:264-266 | defines the substrings a pattern denotes: a literal matches itself, a class one of its chars, a repetition at least its minimum count of class chars; its contract is carried by the MatchAt and Search lemmas |
| Regex.MatchAt | src/modules/tpm/src/lib/Tpm.cpp:264-266 | a match found at a position ends between that position and the end of the text |
| Regex.SearchFrom | src/modules/tpm/src/lib/Tpm.cpp:276-280 | a reported match lies within the text and starts no earlier than the search start |
| Regex.Search | src/modules/tpm/src/lib/Tpm.cpp:264-266 | a match regex_search reports starts and ends within the text |
| Regex.SearchEmptyText | src/modules/tpm/src/lib/Tpm.cpp:274-278 | a pattern opening with a non-empty literal, as both caps-file markers do, is never found in empty output |
| Regex.MatchAtSound | src/modules/tpm/src/lib/Tpm.cpp:264-266 | every match the matcher reports is a match of the pattern |
| Regex.MatchAtComplete | src/modules/tpm/src/lib/Tpm.cpp:276-280 | for unambiguous patterns, the matcher finds a match wherever one exists, and its match is the longest |
| Regex.SearchFromFound | src/modules/tpm/src/lib/Tpm.cpp:264-266 | a match the search reports from a start position is a match, no match starts between that position and it, and none at its start is longer |
| Regex.SearchFromMissing | src/modules/tpm/src/lib/Tpm.cpp:264-266 | when the search from a start position reports nothing, no match starts at or after that position |
| Regex.SearchFromFindsFirstLongest | src/modules/tpm/src/lib/Tpm.cpp:297-301 | from any start position up to the leftmost match, the search reports that match with its longest end |
| Regex.SearchLeftmostLongest | src/modules/tpm/src/lib/Tpm.cpp:264-266 | regex_search reports the leftmost match, longest at that start, and fails exactly when the text has no match |
| Regex.SearchFindsFirstLongest | src/modules/tpm/src/lib/Tpm.cpp:297-301 | a leftmost, longest match is exactly what regex_search reports |
| Regex.MatchAtEndsRun | src/modules/tpm/src/lib/Tpm.cpp:278-280 | a match ending in a repetition stops at the end of the text or at a char outside the repetition's class |
| CapsText.PatternsUnambiguous | src/modules/tpm/src/lib/Tpm.cpp:24-26 | in each pattern, every repetition is followed by a token that cannot start with a char of the repetition |
| CapsText.FirstLine | src/modules/tpm/src/lib/Tpm.cpp:281 | the first line is a prefix of the text with no line feed, and it stops at a line feed or at the end |
| CapsText.FirstLineIsSubstrToFind | src/modules/tpm/src/lib/Tpm.cpp:281 | substr(0, find('\n')) keeps exactly the first line, with an npos count keeping the whole string |
| CapsText.TextAfter | src/modules/tpm/src/lib/Tpm.cpp:278-281 | when the marker is found, the kept rest of its line is no longer than the output |
| CapsText.VersionFromCaps | src/modules/tpm/src/lib/Tpm.cpp:269-289 | the version is no longer than the caps text and neither starts nor ends with ' ' |
| CapsText.ManufacturerFromCaps | src/modules/tpm/src/lib/Tpm.cpp:291-311 | a returned manufacturer is at most half as long as the caps text, since two hex digits make one char, and neither starts nor ends with ' ' |
| CapsText.DecodeAndTrim | src/modules/tpm/src/lib/Tpm.cpp:303-304 | HexToText then Trim: a returned text is at most half as long as the line and neither starts nor ends with ' '; Trim throws on decoded text of spaces only |
| CapsText.ListsTpmDeviceIffMatch | src/modules/tpm/src/lib/Tpm.cpp:264-266 | the device search succeeds exactly when some substring of the listing matches /dev/tpm[rm]*[0-9] |
| CapsText.VersionIsTrimmedLabelledLine | src/modules/tpm/src/lib/Tpm.cpp:269-289 | the version is the rest of the line after the first, longest TCG version marker, trimmed of spaces |
| CapsText.VersionAfterSearch | src/modules/tpm/src/lib/Tpm.cpp:276-284 | once the search reports the marker ending at e, the version is the rest of that line with its spaces trimmed |
| CapsText.NoVersionLabelNoVersion | src/modules/tpm/src/lib/Tpm.cpp:274-288 | without a version marker the version is empty |
| CapsText.ManufacturerIsTrimmedDecodedLine | src/modules/tpm/src/lib/Tpm.cpp:291-311 | the manufacturer is the rest of the line after the first, longest manufacturer marker, hex-decoded and then trimmed; a decoded line of spaces only throws |
| CapsText.ManufacturerAfterSearch | src/modules/tpm/src/lib/Tpm.cpp:297-306 | once the search reports the marker ending at e, the manufacturer is the rest of that line, hex-decoded and then trimmed, or the exception Trim throws |
| CapsText.NoManufacturerLabelNoManufacturer | src/modules/tpm/src/lib/Tpm.cpp:295-310 | without a manufacturer marker the manufacturer is empty and nothing throws |
| CapsText.SpaceManufacturerThrows | src/modules/tpm/src/lib/Tpm.cpp:303-304 | the caps text "Manufacturer: 0x2020" decodes to two spaces, and Trim then throws std::out_of_range |
| CapsText.SampleManufacturerLine | src/modules/tpm/src/lib/Tpm.cpp:297-301 | in "Manufacturer: 0x2020" the text after the marker is "2020" |
| CapsText.SampleDigitsDecodeToSpaces | src/modules/tpm/src/lib/Tpm.cpp:228-253 | the digits "2020" decode to two spaces |
| CapsText.VersionLineStartsWithNonBlank | src/modules/tpm/src/lib/Tpm.cpp:278-282 | the marker's trailing \s+ consumes all blanks, so the version line never starts with a blank and Trim cannot throw on it |
| CapsText.VersionShape | src/modules/tpm/src/lib/Tpm.cpp:269-289 | the version holds no line feed and neither starts nor ends with ' ' |
| Tpm2Utils.BigEndianBound | src/modules/tpm/src/lib/Tpm2Utils.h:76-82 | n bytes decode to a number below 256^n |
| Tpm2Utils.BigEndianIsSum | src/modules/tpm/src/lib/Tpm2Utils.h:77-81 | the shift-and-add loop's value equals the positional sum of the bytes, most significant first |
| Tpm2Utils.BigEndianLowByte | src/modules/tpm/src/lib/Tpm2Utils.h:79-80 | the last byte read is the low byte of the result |
| Tpm2Utils.BigEndian | src/modules/tpm/src/lib/Tpm2Utils.h:77-81 | defines the value the shift-and-add loop builds; its bound, positional sum and low byte are the BigEndian lemmas |
| Tpm2Utils.GetTpmPropertiesRequest | src/modules/tpm/src/lib/Tpm2Utils.h:18-26 | the 22-byte request has the no-sessions tag, a commandSize equal to its own length, command code 0x17A, capability TPM_CAP_TPM_PROPERTIES, first property 0x100 and count 0x66 |
| Tpm2Utils.ConversionRejected | src/modules/tpm/src/lib/Tpm2Utils.h:39-73 | defines the seven argument checks, in the order the source makes them, any of which makes the conversion EINVAL |
| Tpm2Utils.UnsignedInt8ToUnsignedInt64 | src/modules/tpm/src/lib/Tpm2Utils.h:31-86 | EINVAL exactly when a pointer is null, the offset is not below the size, the size exceeds INT_MAX, or the length is 0, past the end or over 8, and then the output is untouched; otherwise the output is the big-endian value of the bytes, below 256^length |
| Tpm2Utils.ResponseBuffer | src/modules/tpm/src/lib/Tpm2Utils.h:98-117 | the response buffer is always 4096 bytes long: what read returned, then 0xFF filler |
| Tpm2Utils.Wanted | src/modules/tpm/src/lib/Tpm2Utils.h:132-142 | defines the tags the scan stops at: 0x100 for tpmVersion and 0x105 for tpmManufacturer, no other pairing |
| Tpm2Utils.FirstWanted | src/modules/tpm/src/lib/Tpm2Utils.h:124-143 | a found entry is at an offset the scan visits, below 4088, and carries a tag the object name asks for |
| Tpm2Utils.FirstWantedStep | src/modules/tpm/src/lib/Tpm2Utils.h:124-143 | one step of the scan: a wanted entry at the current offset is the answer, any other sends the search on by 8 bytes |
| Tpm2Utils.ScanConversionNeverRejected | src/modules/tpm/src/lib/Tpm2Utils.h:124-130 | at every offset the loop visits, the 4-byte tag conversion is accepted and the 8-byte entry lies inside the buffer, so the error break never happens |
| Tpm2Utils.FirstWantedIsFirst | src/modules/tpm/src/lib/Tpm2Utils.h:124-143 | whenever a visited entry has a wanted tag, the scan finds one, at that entry or an earlier one |
| Tpm2Utils.CString | src/modules/tpm/src/lib/Tpm2Utils.h:134-135 | the property text is the value's bytes up to the first NUL, and holds no NUL |
| Tpm2Utils.ScanResult | src/modules/tpm/src/lib/Tpm2Utils.h:105-143 | a property found in a response is at most four chars long and holds no NUL |
| Tpm2Utils.FillerNeverWanted | src/modules/tpm/src/lib/Tpm2Utils.h:105-143 | a tag reaching into the 0xFF filler ends in 0xFF, so it is never 0x100 or 0x105 |
| Tpm2Utils.ScanMatchesOnlySentTags | src/modules/tpm/src/lib/Tpm2Utils.h:105-143 | the tag the scan stops at lies wholly inside the bytes the device sent |
| Tpm2Utils.ShortResponseYieldsNothing | src/modules/tpm/src/lib/Tpm2Utils.h:117-144 | a response shorter than 23 bytes never yields a property |
| Tpm2Utils.DeviceStatus | src/modules/tpm/src/lib/Tpm2Utils.h:98-121 | defines the status of the device query: ENOMEM when malloc fails, ENOENT when open fails, errno when write or read fails, MMI_OK when the device responds |
| Tpm2Utils.ScanTaggedProperties | src/modules/tpm/src/lib/Tpm2Utils.h:124-144 | the loop leaves the property unchanged when no visited tag is wanted, and otherwise sets it to the value text of the first wanted entry |
| Tpm2Utils.GetTpmPropertyFromDeviceFile | src/modules/tpm/src/lib/Tpm2Utils.h:88-156 | the status is ENOMEM, ENOENT, the write or read errno, or MMI_OK; the property changes only when the device responded and the scan found a wanted entry |
| TpmModule.Quoted | src/modules/tpm/src/lib/Tpm.cpp:129 | the data is the text between two double quotes, unescaped |
| TpmModule.StatusText | src/modules/tpm/src/lib/Tpm.cpp:104 | the tpmStatus data is one digit between "0" and "2", the status enum's value |
| Spaces.FindSpaceAtStart | src/modules/tpm/src/lib/Tpm.cpp:196 | find(" ") == 0 holds exactly when the string starts with a space |
| Spaces.RFindSpaceAtEnd | src/modules/tpm/src/lib/Tpm.cpp:201-202 | rfind(" ") == size() - 1, with size() - 1 wrapping to npos, holds exactly when the string is empty or ends with a space |
| TpmModule.Tpm.constructor | src/modules/tpm/src/lib/Tpm.cpp:33-36 | keeps the maximum payload size and starts with the caps file assumed present |
| TpmModule.Tpm.GetInfo | src/modules/tpm/src/lib/Tpm.cpp:40-76 | EINVAL exactly for a null argument, with no payload written; ENOMEM with a null payload when the allocation fails; otherwise MMI_OK with the 277-byte module description |
| TpmModule.Tpm.GetInfoIgnoresClientName | src/modules/tpm/src/lib/Tpm.cpp:40-76 | the reply does not depend on which client asks |
| TpmModule.Tpm.ProbeOutput | src/modules/tpm/src/lib/Tpm.cpp:257-262 | the tpmrm listing is used only when the tpm listing printed nothing |
| TpmModule.Tpm.GetStatus | src/modules/tpm/src/lib/Tpm.cpp:255-267 | never Unknown; TpmDetected exactly when the listing contains a match of /dev/tpm[rm]*[0-9] |
| TpmModule.Tpm.Trim | src/modules/tpm/src/lib/Tpm.cpp:192-208 | a non-empty string of spaces only throws std::out_of_range; any other string is returned without its leading and trailing spaces |
| TpmModule.Tpm.EraseLeadingSpaces | src/modules/tpm/src/lib/Tpm.cpp:196-199 | the first loop of Trim removes exactly the run of leading spaces |
| TpmModule.Tpm.EraseTrailingSpaces | src/modules/tpm/src/lib/Tpm.cpp:201-206 | the second loop of Trim removes exactly the run of trailing spaces, and throws std::out_of_range exactly when that leaves the string empty |
| TpmModule.Tpm.HexToText | src/modules/tpm/src/lib/Tpm.cpp:228-253 | the loop with its early break computes HexToTextResult, whose properties are the Hex lemmas |
| TpmModule.Tpm.GetVersionFromCapabilitiesFile | src/modules/tpm/src/lib/Tpm.cpp:269-289 | returns the caps text's version, as CapsText characterises it, and never throws |
| TpmModule.Tpm.GetManufacturerFromCapabilitiesFile | src/modules/tpm/src/lib/Tpm.cpp:291-311 | returns the caps text's manufacturer, or the exception Trim throws on it |
| TpmModule.Tpm.ObjectData | src/modules/tpm/src/lib/Tpm.cpp:97-166 | only a tpmManufacturer query of the TPM component can throw, and MMI_OK comes only from the TPM component, always with non-empty data |
| TpmModule.Tpm.GetReply | src/modules/tpm/src/lib/Tpm.cpp:167-189 | defines the reply: data over a nonzero maximum is refused with E2BIG and the payload untouched, else the data is copied out, or ENOMEM with a null payload; GetPayloadFitsLimit and the object lemmas state its properties |
| TpmModule.Tpm.Get | src/modules/tpm/src/lib/Tpm.cpp:95-190 | the status, the payload written and any exception are exactly those GetReply gives |
| TpmModule.Tpm.GetPayloadFitsLimit | src/modules/tpm/src/lib/Tpm.cpp:167-187 | data longer than a nonzero maximum is always refused with E2BIG and the payload left unassigned; a written payload never exceeds that maximum, and the payload is left unassigned only with E2BIG |
| TpmModule.Tpm.GetStatusObject | src/modules/tpm/src/lib/Tpm.cpp:100-105 | tpmStatus is MMI_OK with payload "1" when the listing names a TPM device and "2" otherwise |
| TpmModule.Tpm.GetUnknownNameIsInvalid | src/modules/tpm/src/lib/Tpm.cpp:156-186 | an unknown component or object, or a caps-file object while the caps file is missing, is EINVAL with an empty payload still written, or ENOMEM when that allocation fails |
| TpmModule.Tpm.GetVersionObject | src/modules/tpm/src/lib/Tpm.cpp:106-130 | tpmVersion writes the quoted caps-file version; the status is the device query's status when that version is empty and MMI_OK otherwise |
| TpmModule.Tpm.GetManufacturerObject | src/modules/tpm/src/lib/Tpm.cpp:131-155 | tpmManufacturer rethrows when the caps-file reader throws; otherwise, for manufacturer m, it writes m quoted, and the status is the device query's status when m is empty and MMI_OK otherwise |
| TpmModule.Tpm.GetPayloadIgnoresDevice | src/modules/tpm/src/lib/Tpm.cpp:106-155 | whatever the device answers, the payload is the same: the property read from it only reaches a log line |
| TpmModule.Tpm.GetThrowsOnlyOnBlankManufacturer | src/modules/tpm/src/lib/Tpm.cpp:131-155 | Get throws exactly for a tpmManufacturer query while the caps file is present and its decoded manufacturer line is spaces only |

## Left out

- Logging (`OsConfigLogInfo`/`OsConfigLogError`, `TpmLog`) is left out because it has no effect on results.
  This includes the two regex searches on the device property in `Get`, since they only choose what to log.
- `Tpm::RunCommand` and `ExecuteCommand` are left out. CommonUtils.h, which declares `ExecuteCommand`, is not part of this model;
  the command runner's outputs are the constant `runCommand`.
- The system calls `malloc`, `open`, `write`, `read` and `close` are left out. The whole exchange is the input
  `DeviceExchange`, and the request that would be written is only computed.
- The MMI adapter, the module registration, the MimParser test tool and the Rust platform files are left out,
  because they lie outside the `Tpm` class.
- The null-pointer crash of `Get` on a null name or payload pointer is left out: `Get` does not check these
  pointers, so its behaviour there is undefined.
- The conversion of `data.length()` to `int` for `*payloadSizeBytes` is left out. Payload sizes are unbounded
  here.
- `std::regex` is replaced by a token pattern language that covers three of the module's five expressions:
  the device listing, the version marker and the manufacturer marker. The two device-file expressions,
  `g_tpmVersionFromDeviceFile` and `g_tpmManufacturerFromDeviceFile`, are left out because they only affect
  logging. Other ECMAScript syntax is not modelled.
- `Decode` takes the C++ `char`. Chars of 0x80 and above, which are negative on signed-char platforms, lie outside
  every digit range in both views. Strings are sequences of Unicode chars, and a C++ byte b is the char with
  code b.
