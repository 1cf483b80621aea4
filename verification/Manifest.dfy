/** The signed artifact manifest: its canonical text, the parser that a device
    runs on it, and the tool that writes it. One `char` stands for one byte. */
module Manifest {
  import opened Text
  import Decimal

  const MANIFEST_HEADER := "THISTLE-ARTIFACT-MANIFEST-V1"

  datatype ArtifactType = Firmware | Board | Driver | WindowManager {
    function AsStr(): string {
      match this
      case Firmware => "firmware"
      case Board => "board"
      case Driver => "driver"
      case WindowManager => "wm"
    }
  }

  function ParseType(value: string): Result<ArtifactType> {
    if value == "firmware" then Ok(Firmware)
    else if value == "board" then Ok(Board)
    else if value == "driver" then Ok(Driver)
    else if value == "wm" then Ok(WindowManager)
    else Err(InvalidData("unsupported artifact type"))
  }

  datatype ArtifactManifest = ArtifactManifest(
    artifactType: ArtifactType,
    id: string,
    version: string,
    securityVersion: nat,
    arch: string,
    compatibleBoards: seq<string>,
    destination: string,
    sha256: string,
    size: nat,
    url: string)

  // ----- Shape -----

  predicate IsAlphanumeric(c: char) {
    'a' <= c <= 'z' || 'A' <= c <= 'Z' || '0' <= c <= '9'
  }

  predicate ValidIdentifier(value: string) {
    && 0 < |value| <= 64
    && value[0] != '.'
    && forall c :: c in value ==> IsAlphanumeric(c) || c == '-' || c == '_' || c == '.'
  }

  predicate IsNumber(text: string) {
    text != "" && forall c :: c in text ==> '0' <= c <= '9'
  }

  predicate ValidVersion(version: string) {
    var normalized := if version != "" && version[0] == 'v' then version[1..] else version;
    var parts := Split(normalized, '.');
    |parts| == 3 && forall part :: part in parts ==> IsNumber(part)
  }

  function ExpectedDestination(artifactType: ArtifactType, id: string): string {
    match artifactType
    case Firmware => "ota_1"
    case Board => "config/boards/" + id + ".json"
    case Driver => "drivers/" + id + ".drv.elf"
    case WindowManager => "wm/" + id + ".wm.elf"
  }

  predicate SupportedArch(arch: string) {
    arch == "esp32" || arch == "esp32s2" || arch == "esp32s3" || arch == "esp32c3" || arch == "esp32c6"
  }

  predicate ValidUrl(url: string) {
    "https://" <= url && forall c :: c in url ==> c > ' '
  }

  /** Byte-wise order of strings. */
  predicate Less(a: string, b: string) {
    b != "" && (a == "" || a[0] < b[0] || (a[0] == b[0] && Less(a[1..], b[1..])))
  }

  ghost predicate StrictlySorted(boards: seq<string>) {
    forall i, j :: 0 <= i < j < |boards| ==> Less(boards[i], boards[j])
  }

  /** The manifests that a device accepts. */
  ghost predicate ValidShape(m: ArtifactManifest) {
    && ValidIdentifier(m.id)
    && ValidVersion(m.version)
    && 0 < m.securityVersion
    && SupportedArch(m.arch)
    && m.compatibleBoards != []
    && (forall board :: board in m.compatibleBoards ==> ValidIdentifier(board))
    && StrictlySorted(m.compatibleBoards)
    && m.destination == ExpectedDestination(m.artifactType, m.id)
    && ValidDigest(m.sha256)
    && 0 < m.size
    && ValidUrl(m.url)
  }

  /** The loop over the boards in `validate_shape`, after the board `previous`. */
  function ValidateBoards(previous: Option<string>, boards: seq<string>): Result<()>
    decreases |boards|
  {
    if boards == [] then Ok(())
    else if !ValidIdentifier(boards[0]) then Err(InvalidData("invalid compatible board"))
    else if previous.Some? && !Less(previous.value, boards[0]) then
      Err(InvalidData("compatible_boards must be sorted and unique"))
    else ValidateBoards(Some(boards[0]), boards[1..])
  }

  method CheckBoards(boards: seq<string>) returns (r: Result<()>)
    ensures r == ValidateBoards(None, boards)
  {
    var previous: Option<string> := None;
    assert boards[0..] == boards;
    for i := 0 to |boards|
      invariant ValidateBoards(None, boards) == ValidateBoards(previous, boards[i..])
    {
      assert boards[i..][1..] == boards[i + 1..];
      if !ValidIdentifier(boards[i]) {
        return Err(InvalidData("invalid compatible board"));
      }
      if previous.Some? && !Less(previous.value, boards[i]) {
        return Err(InvalidData("compatible_boards must be sorted and unique"));
      }
      previous := Some(boards[i]);
    }
    return Ok(());
  }

  /** `validate_shape`. */
  function ValidateShape(m: ArtifactManifest): Result<()> {
    if !ValidIdentifier(m.id) then Err(InvalidData("invalid id"))
    else if !ValidVersion(m.version) then Err(InvalidData("version must be a numeric semantic version"))
    else if m.securityVersion == 0 then Err(InvalidData("security_version must be greater than zero"))
    else if !SupportedArch(m.arch) then Err(InvalidData("unsupported architecture"))
    else if m.compatibleBoards == [] then Err(InvalidData("compatible_boards must not be empty"))
    else
      var boards := ValidateBoards(None, m.compatibleBoards);
      if boards.Err? then boards
      else if m.destination != ExpectedDestination(m.artifactType, m.id) then
        Err(InvalidData("destination does not match"))
      else if !ValidDigest(m.sha256) then Err(InvalidData("sha256 must be 64 lowercase hexadecimal characters"))
      else if m.size == 0 then Err(InvalidData("artifact size must be greater than zero"))
      else if !ValidUrl(m.url) then Err(InvalidData("artifact URL must be a whitespace-free HTTPS URL"))
      else Ok(())
  }

  lemma {:induction false} LessIsTransitive(a: string, b: string, c: string)
    requires Less(a, b) && Less(b, c)
    ensures Less(a, c)
    decreases |a|
  {
    if a != "" && a[0] == b[0] == c[0] {
      LessIsTransitive(a[1..], b[1..], c[1..]);
    }
  }

  lemma {:induction false} LessIsIrreflexive(a: string)
    ensures !Less(a, a)
  {
    if a != "" {
      LessIsIrreflexive(a[1..]);
    }
  }

  lemma {:induction false} LessIsTotal(a: string, b: string)
    ensures a == b || Less(a, b) || Less(b, a)
  {
    if a != "" && b != "" && a[0] == b[0] {
      LessIsTotal(a[1..], b[1..]);
      assert a == [a[0]] + a[1..] && b == [b[0]] + b[1..];
    }
  }

  /** The texts are the same up to `n`, and there `a` ends or has the smaller byte. */
  ghost predicate SmallerAt(a: string, b: string, n: nat) {
    n <= |a| && n < |b| && a[..n] == b[..n] && (n == |a| || a[n] < b[n])
  }

  /** The order is that of the bytes: the first place where two texts differ decides. */
  lemma {:induction false} LessMeaning(a: string, b: string)
    ensures Less(a, b) <==> exists n: nat :: SmallerAt(a, b, n)
  {
    if a != "" && b != "" && a[0] == b[0] {
      LessMeaning(a[1..], b[1..]);
      forall n: nat | n > 0
        ensures SmallerAt(a, b, n) <==> SmallerAt(a[1..], b[1..], n - 1)
      {
        if n <= |a| && n < |b| {
          assert a[..n] == [a[0]] + a[1..][..n - 1] && b[..n] == [b[0]] + b[1..][..n - 1];
        }
      }
      if n: nat :| SmallerAt(a[1..], b[1..], n) {
        assert SmallerAt(a, b, n + 1);
      }
    } else {
      assert Less(a, b) ==> SmallerAt(a, b, 0);
      forall n: nat | SmallerAt(a, b, n)
        ensures n == 0
      {
        SameStart(a, b, n);
      }
    }
  }

  lemma SameStart(a: string, b: string, n: nat)
    requires SmallerAt(a, b, n)
    ensures n == 0 || (a != "" && b != "" && a[0] == b[0])
  {
    assert n > 0 ==> a[..n][0] == b[..n][0];
  }

  ghost predicate GoodBoards(previous: Option<string>, boards: seq<string>) {
    && (forall board :: board in boards ==> ValidIdentifier(board))
    && StrictlySorted(boards)
    && (previous.Some? ==> forall board :: board in boards ==> Less(previous.value, board))
  }

  lemma GoodBoardsStep(previous: Option<string>, boards: seq<string>)
    requires boards != []
    ensures GoodBoards(previous, boards) <==>
              && ValidIdentifier(boards[0])
              && (previous.Some? ==> Less(previous.value, boards[0]))
              && GoodBoards(Some(boards[0]), boards[1..])
  {
    hide ValidIdentifier, Less;
    var first, rest := boards[0], boards[1..];
    assert boards == [first] + rest;
    if GoodBoards(previous, boards) {
      forall i, j | 0 <= i < j < |rest|
        ensures Less(rest[i], rest[j])
      {
        assert Less(boards[i + 1], boards[j + 1]);
      }
      forall board | board in rest
        ensures Less(first, board)
      {
        var j :| 0 <= j < |rest| && rest[j] == board;
        assert Less(boards[0], boards[j + 1]);
      }
    } else if ValidIdentifier(first) && (previous.Some? ==> Less(previous.value, first))
        && GoodBoards(Some(first), rest) {
      forall i, j | 0 <= i < j < |boards|
        ensures Less(boards[i], boards[j])
      {
        assert boards[j] == rest[j - 1] && (i > 0 ==> boards[i] == rest[i - 1]);
      }
      forall board | board in rest && previous.Some?
        ensures Less(previous.value, board)
      {
        LessIsTransitive(previous.value, first, board);
      }
      assert false;
    }
  }

  /** Comparing neighbours is enough for the boards to be sorted and unique throughout. */
  lemma {:induction false} BoardsMeaning(previous: Option<string>, boards: seq<string>)
    ensures ValidateBoards(previous, boards).Ok? <==> GoodBoards(previous, boards)
    decreases |boards|
  {
    hide ValidIdentifier, Less;
    if boards != [] {
      hide GoodBoards;
      GoodBoardsStep(previous, boards);
      BoardsMeaning(Some(boards[0]), boards[1..]);
    }
  }

  /** `version` is three numbers with dots between. */
  ghost predicate ThreeNumbers(version: string, parts: seq<string>) {
    && |parts| == 3 && (forall part :: part in parts ==> IsNumber(part))
    && version == parts[0] + "." + parts[1] + "." + parts[2]
  }

  lemma ThreeJoined(parts: seq<string>)
    requires |parts| == 3
    ensures Join(parts, '.') == parts[0] + "." + parts[1] + "." + parts[2]
  {
    assert Join(parts[1..], '.') == parts[1] + ['.'] + Join(parts[1..][1..], '.');
    assert parts[1..][1..] == [parts[2]];
    assert parts[0] + "." + (parts[1] + "." + parts[2]) == parts[0] + "." + parts[1] + "." + parts[2];
  }

  lemma DigitFirst(version: string, parts: seq<string>)
    requires ThreeNumbers(version, parts)
    ensures version != "" && version[0] != 'v'
  {
    assert parts[0] in parts && version[0] == parts[0][0];
    assert parts[0][0] in parts[0];
  }

  /** A version is three numbers with dots between, with or without a `v` in front. */
  lemma VersionMeaning(version: string)
    ensures ValidVersion(version) <==>
              exists parts :: ThreeNumbers(version, parts) || ("v" <= version && ThreeNumbers(version[1..], parts))
  {
    hide Split, Join;
    hide IsNumber;
    var normalized := if version != "" && version[0] == 'v' then version[1..] else version;
    if ValidVersion(version) {
      JoinSplit(normalized, '.');
      ThreeJoined(Split(normalized, '.'));
      assert ThreeNumbers(normalized, Split(normalized, '.'));
    }
    forall parts | ThreeNumbers(version, parts) || ("v" <= version && ThreeNumbers(version[1..], parts))
      ensures ValidVersion(version)
    {
      DigitFirst(if ThreeNumbers(version, parts) then version else version[1..], parts);
      ThreeJoined(parts);
      NoDots(parts);
      SplitJoin(parts, '.');
      assert ThreeNumbers(normalized, parts);
    }
  }

  lemma NoDots(parts: seq<string>)
    requires forall part :: part in parts ==> IsNumber(part)
    ensures forall part :: part in parts ==> '.' !in part
  {
  }

  lemma ShapeMeaning(m: ArtifactManifest)
    ensures ValidateShape(m).Ok? <==> ValidShape(m)
  {
    hide ValidIdentifier, ValidVersion, ValidUrl, ValidDigest;
    BoardsMeaning(None, m.compatibleBoards);
  }

  // ----- Text -----

  function Line(name: string, value: string): string {
    name + "=" + value
  }

  function CanonicalLines(m: ArtifactManifest): seq<string> {
    [ MANIFEST_HEADER,
      Line("type", m.artifactType.AsStr()),
      Line("id", m.id),
      Line("version", m.version),
      Line("security_version", Decimal.Print(m.securityVersion)),
      Line("arch", m.arch),
      Line("compatible_boards", Join(m.compatibleBoards, ',')),
      Line("destination", m.destination),
      Line("sha256", m.sha256),
      Line("size", Decimal.Print(m.size)),
      Line("url", m.url) ]
  }

  function Terminated(lines: seq<string>): string {
    if lines == [] then "" else lines[0] + "\n" + Terminated(lines[1..])
  }

  /** `canonical_bytes`. */
  function Canonical(m: ArtifactManifest): string {
    Terminated(CanonicalLines(m))
  }

  function Field(line: string, name: string): Result<string> {
    if name <= line && |line| > |name| + 1 && line[|name|] == '=' then Ok(line[|name| + 1..])
    else Err(InvalidData("missing or empty canonical field"))
  }

  function Number(text: string, limit: nat): Result<nat> {
    match Decimal.Parse(text, limit)
    case Some(n) => Ok(n)
    case None => Err(InvalidData("must be a decimal number"))
  }

  /** The fields of the eleven lines, before any of them is validated. */
  function Fields(lines: seq<string>): Result<ArtifactManifest>
    requires |lines| == 11
  {
    var typeText := Field(lines[1], "type");
    if typeText.Err? then Err(typeText.error) else
    var artifactType := ParseType(typeText.value);
    if artifactType.Err? then Err(artifactType.error) else
    var id := Field(lines[2], "id");
    if id.Err? then Err(id.error) else
    var version := Field(lines[3], "version");
    if version.Err? then Err(version.error) else
    var securityText := Field(lines[4], "security_version");
    if securityText.Err? then Err(securityText.error) else
    var securityVersion := Number(securityText.value, 0x1_0000_0000);
    if securityVersion.Err? then Err(securityVersion.error) else
    var arch := Field(lines[5], "arch");
    if arch.Err? then Err(arch.error) else
    var boards := Field(lines[6], "compatible_boards");
    if boards.Err? then Err(boards.error) else
    var destination := Field(lines[7], "destination");
    if destination.Err? then Err(destination.error) else
    var sha256 := Field(lines[8], "sha256");
    if sha256.Err? then Err(sha256.error) else
    var sizeText := Field(lines[9], "size");
    if sizeText.Err? then Err(sizeText.error) else
    var size := Number(sizeText.value, USIZE_LIMIT);
    if size.Err? then Err(size.error) else
    var url := Field(lines[10], "url");
    if url.Err? then Err(url.error) else
    Ok(ArtifactManifest(artifactType.value, id.value, version.value, securityVersion.value, arch.value,
                        Split(boards.value, ','), destination.value, sha256.value, size.value, url.value))
  }

  /** `ArtifactManifest::parse`. */
  function Parse(text: string): Result<ArtifactManifest> {
    if text == "" || text[|text| - 1] != '\n' || '\r' in text then
      Err(InvalidData("manifest must use canonical LF-terminated lines"))
    else
      var lines := Split(text[..|text| - 1], '\n');
      if |lines| != 11 || lines[0] != MANIFEST_HEADER then
        Err(InvalidData("manifest has an invalid header or field count"))
      else
        var fields := Fields(lines);
        if fields.Err? then fields
        else
          var shape := ValidateShape(fields.value);
          if shape.Err? then Err(shape.error)
          else if Canonical(fields.value) != text then Err(InvalidData("manifest is not in canonical form"))
          else fields
  }

  // ----- Printing and parsing undo each other -----

  lemma {:induction false} TerminatedIsJoined(lines: seq<string>)
    requires lines != []
    ensures Terminated(lines) == Join(lines, '\n') + "\n"
  {
    if |lines| > 1 {
      TerminatedIsJoined(lines[1..]);
    }
  }

  /** A text of lines that hold no line break is split back into these lines. */
  lemma TerminatedSplits(lines: seq<string>)
    requires lines != [] && forall line :: line in lines ==> '\n' !in line
    ensures Terminated(lines) != "" && Terminated(lines)[|Terminated(lines)| - 1] == '\n'
    ensures Split(Terminated(lines)[..|Terminated(lines)| - 1], '\n') == lines
  {
    TerminatedIsJoined(lines);
    SplitJoin(lines, '\n');
    assert Terminated(lines)[..|Terminated(lines)| - 1] == Join(lines, '\n');
  }

  lemma {:induction false} TerminatedHolds(lines: seq<string>, c: char)
    requires c != '\n'
    ensures c in Terminated(lines) <==> exists line :: line in lines && c in line
  {
    if lines != [] {
      TerminatedHolds(lines[1..], c);
      assert lines == [lines[0]] + lines[1..];
    }
  }

  /** No value can break out of its line, and none is empty. */
  ghost predicate SingleLine(value: string) {
    value != "" && '\n' !in value && '\r' !in value
  }

  ghost predicate SingleLineFields(m: ArtifactManifest) {
    && SingleLine(m.id) && SingleLine(m.version) && SingleLine(m.arch)
    && SingleLine(Join(m.compatibleBoards, ','))
    && SingleLine(m.destination) && SingleLine(m.sha256) && SingleLine(m.url)
  }

  lemma FieldOfLine(name: string, value: string)
    requires value != ""
    ensures Field(Line(name, value), name) == Ok(value)
  {
    var line := Line(name, value);
    assert line[..|name|] == name;
  }

  /** The parser sees exactly the fields that were printed, whatever they are. */
  lemma FieldsOfCanonical(m: ArtifactManifest)
    requires SingleLineFields(m)
    requires m.securityVersion < 0x1_0000_0000 && m.size < USIZE_LIMIT
    ensures Fields(CanonicalLines(m)) == Ok(m.(compatibleBoards := Split(Join(m.compatibleBoards, ','), ',')))
  {
    hide Decimal.Parse, Decimal.Print, Join, Split, Field, Line;
    FieldOfLine("type", m.artifactType.AsStr());
    FieldOfLine("id", m.id);
    FieldOfLine("version", m.version);
    FieldOfLine("security_version", Decimal.Print(m.securityVersion));
    Decimal.ParsePrint(m.securityVersion, 0x1_0000_0000);
    FieldOfLine("arch", m.arch);
    FieldOfLine("compatible_boards", Join(m.compatibleBoards, ','));
    FieldOfLine("destination", m.destination);
    FieldOfLine("sha256", m.sha256);
    FieldOfLine("size", Decimal.Print(m.size));
    Decimal.ParsePrint(m.size, USIZE_LIMIT);
    FieldOfLine("url", m.url);
  }

  lemma CanonicalSplits(m: ArtifactManifest)
    requires SingleLineFields(m)
    ensures Canonical(m) != "" && Canonical(m)[|Canonical(m)| - 1] == '\n' && '\r' !in Canonical(m)
    ensures Split(Canonical(m)[..|Canonical(m)| - 1], '\n') == CanonicalLines(m)
  {
    hide Join, Split, Terminated, Decimal.Print;
    var lines := CanonicalLines(m);
    PlainLines(m);
    TerminatedSplits(lines);
    TerminatedHolds(lines, '\r');
  }

  predicate Plain(text: string) {
    '\n' !in text && '\r' !in text
  }

  lemma PlainLine(name: string, value: string)
    requires Plain(name) && Plain(value)
    ensures Plain(Line(name, value))
  {
  }

  lemma PlainHeader()
    ensures Plain(MANIFEST_HEADER)
  {
  }

  lemma PlainLongNames()
    ensures Plain("security_version") && Plain("compatible_boards")
  {
  }

  lemma PlainShortNames()
    ensures Plain("type") && Plain("id") && Plain("version") && Plain("arch")
    ensures Plain("destination") && Plain("sha256") && Plain("size") && Plain("url")
  {
  }

  lemma PlainTypeName(artifactType: ArtifactType)
    ensures Plain(artifactType.AsStr())
  {
  }

  lemma PlainValues(m: ArtifactManifest)
    requires SingleLineFields(m)
    ensures Plain(m.id) && Plain(m.version) && Plain(Decimal.Print(m.securityVersion)) && Plain(m.arch)
    ensures Plain(Join(m.compatibleBoards, ',')) && Plain(m.destination) && Plain(m.sha256)
            && Plain(Decimal.Print(m.size)) && Plain(m.url)
  {
  }

  lemma PlainLines(m: ArtifactManifest)
    requires SingleLineFields(m)
    ensures forall line :: line in CanonicalLines(m) ==> Plain(line)
  {
    hide Line, Join, Decimal.Print, Plain, SingleLineFields;
    PlainHeader();
    PlainLongNames();
    PlainShortNames();
    PlainTypeName(m.artifactType);
    PlainValues(m);
    PlainLine("type", m.artifactType.AsStr());
    PlainLine("id", m.id);
    PlainLine("version", m.version);
    PlainLine("security_version", Decimal.Print(m.securityVersion));
    PlainLine("arch", m.arch);
    PlainLine("compatible_boards", Join(m.compatibleBoards, ','));
    PlainLine("destination", m.destination);
    PlainLine("sha256", m.sha256);
    PlainLine("size", Decimal.Print(m.size));
    PlainLine("url", m.url);
  }

  // ----- Valid manifests are single-line manifests -----

  lemma {:induction false} JoinHolds(pieces: seq<string>, sep: char, c: char)
    ensures c in Join(pieces, sep) ==> c == sep || exists piece :: piece in pieces && c in piece
  {
    if |pieces| > 1 {
      JoinHolds(pieces[1..], sep, c);
      assert pieces == [pieces[0]] + pieces[1..];
    } else if |pieces| == 1 {
      assert pieces[0] in pieces;
    }
  }

  lemma ValidVersionIsPlain(version: string)
    requires ValidVersion(version)
    ensures SingleLine(version)
  {
    var normalized := if version != "" && version[0] == 'v' then version[1..] else version;
    JoinSplit(normalized, '.');
    JoinHolds(Split(normalized, '.'), '.', '\n');
    JoinHolds(Split(normalized, '.'), '.', '\r');
    assert SingleLine(normalized) by {
      assert normalized == "" ==> Split(normalized, '.') == [""];
      forall part | part in Split(normalized, '.')
        ensures '\n' !in part && '\r' !in part
      {
        assert IsNumber(part);
      }
    }
    assert version == normalized || version == ['v'] + normalized;
  }

  lemma ValidBoardsArePlain(boards: seq<string>)
    requires boards != [] && forall board :: board in boards ==> ValidIdentifier(board)
    ensures SingleLine(Join(boards, ','))
    ensures Split(Join(boards, ','), ',') == boards
  {
    JoinHolds(boards, ',', '\n');
    JoinHolds(boards, ',', '\r');
    assert ValidIdentifier(boards[0]);
    SplitJoin(boards, ',');
  }

  lemma ValidShapeIsPlain(m: ArtifactManifest)
    requires ValidShape(m)
    ensures SingleLineFields(m)
    ensures Split(Join(m.compatibleBoards, ','), ',') == m.compatibleBoards
  {
    hide Join, Split, ValidVersion, Less, StrictlySorted, SingleLine, ValidIdentifier, ValidDigest, ValidUrl,
      SupportedArch, ExpectedDestination;
    ValidVersionIsPlain(m.version);
    ValidBoardsArePlain(m.compatibleBoards);
    ValidPartsArePlain(m.id, m.arch, m.sha256, m.url);
    DestinationIsPlain(m.artifactType, m.id);
  }

  lemma ValidPartsArePlain(id: string, arch: string, digest: string, url: string)
    requires ValidIdentifier(id) && SupportedArch(arch) && ValidDigest(digest) && ValidUrl(url)
    ensures SingleLine(id) && SingleLine(arch) && SingleLine(digest) && SingleLine(url)
  {
  }

  lemma DestinationIsPlain(artifactType: ArtifactType, id: string)
    requires ValidIdentifier(id)
    ensures SingleLine(ExpectedDestination(artifactType, id))
  {
  }

  /** Every manifest of valid shape, printed and parsed, comes back the same. */
  lemma PrintThenParse(m: ArtifactManifest)
    requires ValidShape(m) && m.securityVersion < 0x1_0000_0000 && m.size < USIZE_LIMIT
    ensures Parse(Canonical(m)) == Ok(m)
  {
    hide ValidShape, ValidateShape, Join, Split, Terminated, Canonical, Fields, SingleLineFields;
    ValidShapeIsPlain(m);
    CanonicalSplits(m);
    FieldsOfCanonical(m);
    ShapeMeaning(m);
  }

  /** Every text that is accepted is the canonical text of the manifest it is
      parsed to, and that manifest is valid: printing undoes parsing. */
  lemma ParseThenPrint(text: string)
    requires Parse(text).Ok?
    ensures Canonical(Parse(text).value) == text && ValidShape(Parse(text).value)
    ensures Parse(text).value.securityVersion < 0x1_0000_0000 && Parse(text).value.size < USIZE_LIMIT
  {
    hide ValidShape, ValidateShape, Canonical, Split, Field, ParseType;
    ShapeMeaning(Parse(text).value);
  }

  /** A text is accepted exactly when it is the canonical text of some valid manifest. */
  lemma AcceptedTexts(text: string)
    ensures Parse(text).Ok? <==>
            exists m: ArtifactManifest :: ValidShape(m) && m.securityVersion < 0x1_0000_0000 && m.size < USIZE_LIMIT
                && Canonical(m) == text
  {
    hide ValidShape, Parse, Canonical;
    if Parse(text).Ok? {
      ParseThenPrint(text);
    }
    forall m: ArtifactManifest | ValidShape(m) && m.securityVersion < 0x1_0000_0000 && m.size < USIZE_LIMIT
        && Canonical(m) == text
      ensures Parse(text).Ok?
    {
      PrintThenParse(m);
    }
  }

  /** Two different valid manifests never have the same signed bytes. */
  lemma CanonicalIsInjective(m: ArtifactManifest, other: ArtifactManifest)
    requires ValidShape(m) && m.securityVersion < 0x1_0000_0000 && m.size < USIZE_LIMIT
    requires ValidShape(other) && other.securityVersion < 0x1_0000_0000 && other.size < USIZE_LIMIT
    requires Canonical(m) == Canonical(other)
    ensures m == other
  {
    hide ValidShape, Parse, Canonical;
    PrintThenParse(m);
    PrintThenParse(other);
  }

  // ----- The text itself -----

  /** The canonical text, line by line. */
  lemma CanonicalText(m: ArtifactManifest)
    ensures Canonical(m) ==
            "THISTLE-ARTIFACT-MANIFEST-V1" + "\n" + ("type=" + m.artifactType.AsStr() + "\n" + ("id=" + m.id + "\n"
            + ("version=" + m.version + "\n" + ("security_version=" + Decimal.Print(m.securityVersion) + "\n"
            + ("arch=" + m.arch + "\n" + ("compatible_boards=" + Join(m.compatibleBoards, ',') + "\n"
            + ("destination=" + m.destination + "\n" + ("sha256=" + m.sha256 + "\n"
            + ("size=" + Decimal.Print(m.size) + "\n" + ("url=" + m.url + "\n"))))))))))
  {
    hide Terminated, Join, Decimal.Print;
    var l := CanonicalLines(m);
    TerminatedLines(l);
    LineTexts(m);
  }

  lemma LineTexts(m: ArtifactManifest)
    ensures CanonicalLines(m) ==
            ["THISTLE-ARTIFACT-MANIFEST-V1", "type=" + m.artifactType.AsStr(), "id=" + m.id, "version=" + m.version,
             "security_version=" + Decimal.Print(m.securityVersion), "arch=" + m.arch,
             "compatible_boards=" + Join(m.compatibleBoards, ','), "destination=" + m.destination,
             "sha256=" + m.sha256, "size=" + Decimal.Print(m.size), "url=" + m.url]
  {
    hide Join, Decimal.Print;
    assert "type" + "=" == "type=" && "id" + "=" == "id=" && "version" + "=" == "version=" && "arch" + "=" == "arch=";
    assert "security_version" + "=" == "security_version=" && "compatible_boards" + "=" == "compatible_boards=";
    assert "destination" + "=" == "destination=" && "sha256" + "=" == "sha256=" && "size" + "=" == "size=";
    assert "url" + "=" == "url=";
  }

  lemma {:induction false} TerminatedLines(l: seq<string>)
    requires |l| == 11
    ensures Terminated(l) == l[0] + "\n" + (l[1] + "\n" + (l[2] + "\n" + (l[3] + "\n" + (l[4] + "\n" + (l[5] + "\n"
                             + (l[6] + "\n" + (l[7] + "\n" + (l[8] + "\n" + (l[9] + "\n" + (l[10] + "\n"))))))))))
  {
    hide Terminated;
    LastLines(l);
    EndOfLines(l, 4);
    EndOfLines(l, 3);
    EndOfLines(l, 2);
    EndOfLines(l, 1);
    EndOfLines(l, 0);
    assert l[0..] == l;
  }

  lemma {:induction false} LastLines(l: seq<string>)
    requires |l| == 11
    ensures Terminated(l[5..]) == l[5] + "\n" + (l[6] + "\n"
            + (l[7] + "\n" + (l[8] + "\n" + (l[9] + "\n" + (l[10] + "\n")))))
  {
    hide Terminated;
    EndOfLines(l, 10);
    EndOfLines(l, 9);
    EndOfLines(l, 8);
    EndOfLines(l, 7);
    EndOfLines(l, 6);
    EndOfLines(l, 5);
  }

  lemma {:induction false} EndOfLines(l: seq<string>, k: nat)
    requires k < |l|
    ensures Terminated(l[k..]) == l[k] + "\n" + (if k + 1 < |l| then Terminated(l[k + 1..]) else "")
    ensures k + 1 == |l| ==> Terminated(l[k..]) == l[k] + "\n"
  {
    assert l[k..][1..] == l[k + 1..];
  }

  /** An accepted manifest names its type, and its destination is the one for that type. */
  lemma AcceptedDestinations(text: string)
    requires Parse(text).Ok?
    ensures var m := Parse(text).value;
            match m.artifactType
            case Firmware => m.artifactType.AsStr() == "firmware" && m.destination == "ota_1"
            case Board => m.artifactType.AsStr() == "board" && m.destination == "config/boards/" + m.id + ".json"
            case Driver => m.artifactType.AsStr() == "driver" && m.destination == "drivers/" + m.id + ".drv.elf"
            case WindowManager => m.artifactType.AsStr() == "wm" && m.destination == "wm/" + m.id + ".wm.elf"
  {
    hide Parse;
    ParseThenPrint(text);
  }
}
