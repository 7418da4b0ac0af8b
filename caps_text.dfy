/**
 * The text handling of src/modules/tpm/src/lib/Tpm.cpp given the output of its shell commands: the patterns it
 * searches for and what GetVersionFromCapabilitiesFile and GetManufacturerFromCapabilitiesFile extract from the
 * sysfs `caps` text.
 */
module CapsText {
  import opened Common
  import opened Regex
  import opened Spaces
  import opened Hex

  /** The shell commands of Tpm.cpp. */
  const GET_TPM_DETECTED: string := "ls -d /dev/tpm[0-9]"
  const GET_TPMRM_DETECTED: string := "ls -d /dev/tpm[r][m][0-9]"
  const GET_TPM_CAPABILITIES: string := "cat /sys/class/tpm/tpm0/caps"

  /** The characters of the regex class \s in the C locale. */
  const Blanks: set<char> := {' ', '\t', '\n', '\U{B}', '\U{C}', '\r'}
  const DecimalDigits: set<char> := {'0', '1', '2', '3', '4', '5', '6', '7', '8', '9'}

  /** g_tpmDetected: /dev/tpm[rm]*[0-9] */
  const TpmDevicePattern: Pattern := [Lit("/dev/tpm"), Run({'r', 'm'}, 0), Class(DecimalDigits)]
  /** g_tpmVersionFromCapabilitiesFile: TCG\s+version:\s+ */
  const VersionLabel: Pattern := [Lit("TCG"), Run(Blanks, 1), Lit("version:"), Run(Blanks, 1)]
  /** g_tpmManufacturerFromCapabilitiesFile: Manufacturer:\s+0x */
  const ManufacturerLabel: Pattern := [Lit("Manufacturer:"), Run(Blanks, 1), Lit("0x")]

  lemma PatternsUnambiguous()
    ensures Unambiguous(TpmDevicePattern) && Unambiguous(VersionLabel) && Unambiguous(ManufacturerLabel)
  {
  }

  /** substr(0, find('\n')): the text before the first line feed, or all of it. */
  function FirstLine(s: string): (r: string)
    ensures r <= s && '\n' !in r
    ensures |r| < |s| ==> s[|r|] == '\n'
  {
    if s == [] || s[0] == '\n' then [] else [s[0]] + FirstLine(s[1..])
  }

  /** FirstLine is what substr(0, find('\n')) keeps of a std::string: a count of npos keeps the whole string. */
  lemma FirstLineIsSubstrToFind(s: StdString)
    ensures var k := Find(s, '\n'); FirstLine(s) == s[..if k < |s| then k else |s|]
  {
  }

  /** The rest of the line after the match std::regex_search reports for marker, if there is one. */
  function TextAfter(caps: string, marker: Pattern): (r: Option<string>)
    ensures r.Some? ==> |r.value| <= |caps|
  {
    match Search(caps, marker)
    case None => None
    case Some((_, e)) => Some(FirstLine(caps[e..]))
  }

  /** What GetVersionFromCapabilitiesFile returns for the caps text. */
  function VersionFromCaps(caps: string): (r: string)
    ensures |r| <= |caps|
    ensures r != "" ==> r[0] != ' ' && r[|r| - 1] != ' '
  {
    if |caps| == 0 then ""
    else
      match TextAfter(caps, VersionLabel)
      case None => ""
      case Some(line) => TrimSpaces(line)
  }

  /**
   * What GetManufacturerFromCapabilitiesFile returns for the caps text: the line is hex-decoded and then trimmed,
   * and Trim throws on a non-empty all-space string.
   */
  function ManufacturerFromCaps(caps: string): (r: Outcome<string>)
    ensures r.Returned? ==> 2 * |r.value| <= |caps|
    ensures r.Returned? && r.value != "" ==> r.value[0] != ' ' && r.value[|r.value| - 1] != ' '
  {
    if |caps| == 0 then Returned("")
    else
      match TextAfter(caps, ManufacturerLabel)
      case None => Returned("")
      case Some(line) => DecodeAndTrim(line)
  }

  /** HexToText and then Trim applied to a line: Trim throws when the decoded text is spaces only. */
  function DecodeAndTrim(line: string): (r: Outcome<string>)
    ensures r.Returned? ==> 2 * |r.value| <= |line|
    ensures r.Returned? && r.value != "" ==> r.value[0] != ' ' && r.value[|r.value| - 1] != ' '
  {
    var text := HexToTextResult(line);
    if text != "" && AllSpaces(text) then ThrewOutOfRange else Returned(TrimSpaces(text))
  }

  /** The output lists a TPM device: std::regex_search of g_tpmDetected succeeds. */
  predicate ListsTpmDevice(output: string) {
    Search(output, TpmDevicePattern).Some?
  }

  lemma ListsTpmDeviceIffMatch(output: string)
    ensures ListsTpmDevice(output) <==> exists a: nat, e: nat :: Matches(output, a, TpmDevicePattern, e)
  {
    PatternsUnambiguous();
    SearchLeftmostLongest(output, TpmDevicePattern);
  }

  /**
   * The version is the text after the first, longest match of the marker, up to the first line feed or the end
   * of the text, with its leading and trailing spaces removed; without a marker it is empty.
   */
  lemma VersionIsTrimmedLabelledLine(caps: string, a: nat, e: nat)
    requires Matches(caps, a, VersionLabel, e)
    requires forall b: nat, j: nat :: b < a ==> !Matches(caps, b, VersionLabel, j)
    requires forall j: nat :: Matches(caps, a, VersionLabel, j) ==> j <= e
    ensures VersionFromCaps(caps) == TrimSpaces(FirstLine(caps[e..]))
  {
    PatternsUnambiguous();
    SearchFindsFirstLongest(caps, VersionLabel, a, e);
    VersionAfterSearch(caps, a, e);
  }

  /** Once the search has reported the marker at (a, e), the version is the trimmed rest of that line. */
  lemma VersionAfterSearch(caps: string, a: nat, e: nat)
    requires Search(caps, VersionLabel) == Some((a, e))
    ensures VersionFromCaps(caps) == TrimSpaces(FirstLine(caps[e..]))
  {
    SearchEmptyText(caps, VersionLabel);
    var line := FirstLine(caps[e..]);
    assert TextAfter(caps, VersionLabel) == Some(line);
    VersionOfLine(caps, line);
  }

  /** The version is the trimmed line TextAfter finds. */
  lemma VersionOfLine(caps: string, line: string)
    requires |caps| > 0 && TextAfter(caps, VersionLabel) == Some(line)
    ensures VersionFromCaps(caps) == TrimSpaces(line)
  {
  }

  lemma NoVersionLabelNoVersion(caps: string)
    requires forall b: nat, j: nat :: !Matches(caps, b, VersionLabel, j)
    ensures VersionFromCaps(caps) == ""
  {
    PatternsUnambiguous();
    SearchLeftmostLongest(caps, VersionLabel);
  }

  /**
   * The manufacturer is the hex-decoded text after the first, longest match of its marker, up to the first line
   * feed, with its leading and trailing spaces removed, unless that decoded text is all spaces, when Trim throws.
   */
  lemma ManufacturerIsTrimmedDecodedLine(caps: string, a: nat, e: nat)
    requires Matches(caps, a, ManufacturerLabel, e)
    requires forall b: nat, j: nat :: b < a ==> !Matches(caps, b, ManufacturerLabel, j)
    requires forall j: nat :: Matches(caps, a, ManufacturerLabel, j) ==> j <= e
    ensures ManufacturerFromCaps(caps) == DecodeAndTrim(FirstLine(caps[e..]))
  {
    PatternsUnambiguous();
    SearchFindsFirstLongest(caps, ManufacturerLabel, a, e);
    ManufacturerAfterSearch(caps, a, e);
  }

  /** Once the search has reported the marker at (a, e), the manufacturer is the decoded, trimmed rest of that line. */
  lemma ManufacturerAfterSearch(caps: string, a: nat, e: nat)
    requires Search(caps, ManufacturerLabel) == Some((a, e))
    ensures ManufacturerFromCaps(caps) == DecodeAndTrim(FirstLine(caps[e..]))
  {
    SearchEmptyText(caps, ManufacturerLabel);
    var line := FirstLine(caps[e..]);
    assert TextAfter(caps, ManufacturerLabel) == Some(line);
    ManufacturerOfLine(caps, line);
  }

  /** The manufacturer is DecodeAndTrim of the line TextAfter finds. */
  lemma ManufacturerOfLine(caps: string, line: string)
    requires |caps| > 0 && TextAfter(caps, ManufacturerLabel) == Some(line)
    ensures ManufacturerFromCaps(caps) == DecodeAndTrim(line)
  {
  }

  lemma NoManufacturerLabelNoManufacturer(caps: string)
    requires forall b: nat, j: nat :: !Matches(caps, b, ManufacturerLabel, j)
    ensures ManufacturerFromCaps(caps) == Returned("")
  {
    PatternsUnambiguous();
    SearchLeftmostLongest(caps, ManufacturerLabel);
  }

  /** A caps text whose manufacturer digits spell spaces makes Trim throw. */
  lemma SpaceManufacturerThrows(caps: string)
    requires caps == "Manufacturer: 0x2020"
    ensures ManufacturerFromCaps(caps) == ThrewOutOfRange
  {
    SampleManufacturerLine(caps);
    SampleDigitsDecodeToSpaces("2020");
    assert AllSpaces("  ");
  }

  /** The manufacturer marker of "Manufacturer: 0x2020" ends at index 16, so its line is "2020". */
  lemma SampleManufacturerLine(caps: string)
    requires caps == "Manufacturer: 0x2020"
    ensures TextAfter(caps, ManufacturerLabel) == Some("2020")
  {
    assert caps[0..13] == "Manufacturer:";
    assert RunEnd(caps, 13, Blanks) == 14;
    assert caps[14..16] == "0x";
    assert MatchAt(caps, 14, ManufacturerLabel[2..]) == Some(16);
    assert MatchAt(caps, 13, ManufacturerLabel[1..]) == Some(16);
    assert MatchAt(caps, 0, ManufacturerLabel) == Some(16);
    assert Search(caps, ManufacturerLabel) == Some((0, 16));
    assert caps[16..] == "2020";
    assert FirstLine("2020") == "2020";
  }

  /** "2020" decodes to two spaces. */
  lemma SampleDigitsDecodeToSpaces(s: string)
    requires s == "2020"
    ensures HexToTextResult(s) == "  "
  {
    assert LowDigitsValid(s);
    HexToTextResultAt(s, 0);
    HexToTextResultAt(s, 1);
    PairByteOfDigits(s[0], s[1]);
    PairByteOfDigits(s[2], s[3]);
  }

  /**
   * The line after the version marker never starts with a blank, because the marker's trailing \s+ takes all of
   * them: so Trim is never given an all-space string on this path.
   */
  lemma VersionLineStartsWithNonBlank(caps: string)
    requires TextAfter(caps, VersionLabel).Some?
    ensures var line := TextAfter(caps, VersionLabel).value; line == "" || line[0] !in Blanks
  {
    var (a, e) := Search(caps, VersionLabel).value;
    SearchFoundByMatchAt(caps, VersionLabel, 0);
    MatchAtEndsRun(caps, a, VersionLabel);
  }

  lemma {:induction false} SearchFoundByMatchAt(s: string, p: Pattern, from: nat)
    requires SearchFrom(s, p, from).Some?
    ensures var (a, e) := SearchFrom(s, p, from).value; a <= |s| && MatchAt(s, a, p) == Some(e)
    decreases |s| + 1 - from
  {
    if MatchAt(s, from, p).None? {
      SearchFoundByMatchAt(s, p, from + 1);
    }
  }

  /** The version text holds no line feed and neither starts nor ends with a space. */
  lemma VersionShape(caps: string)
    ensures '\n' !in VersionFromCaps(caps)
    ensures VersionFromCaps(caps) != "" ==> VersionFromCaps(caps)[0] != ' ' && VersionFromCaps(caps)[|VersionFromCaps(caps)| - 1] != ' '
  {
    if caps != "" && TextAfter(caps, VersionLabel).Some? {
      var line := TextAfter(caps, VersionLabel).value;
      assert VersionFromCaps(caps) == TrimSpaces(line);
      TrimSpacesAddsNothing(line, '\n');
      TrimSpacesIsInnerSlice(line);
    }
  }
}
