/** `canonical_manifest` of the signing tool, against the parser on the device. */
module SignTool {
  import opened Text
  import opened Manifest
  import Decimal

  /** The arguments of `canonical_manifest`; the digest and the size are those of the payload. */
  datatype Arguments = Arguments(
    artifactType: ArtifactType,
    artifactId: string,
    version: string,
    securityVersion: int,
    arch: string,
    compatibleBoards: seq<string>,
    url: string,
    digest: string,
    payloadSize: nat)

  function Insert(sorted: seq<string>, item: string): seq<string> {
    if sorted == [] then [item]
    else if sorted[0] == item then sorted
    else if Less(item, sorted[0]) then [item] + sorted
    else [sorted[0]] + Insert(sorted[1..], item)
  }

  /** `sorted(set(items))`. */
  function SortedSet(items: seq<string>): seq<string> {
    if items == [] then [] else Insert(SortedSet(items[1..]), items[0])
  }

  lemma {:induction false} InsertSorts(sorted: seq<string>, item: string)
    requires StrictlySorted(sorted)
    ensures StrictlySorted(Insert(sorted, item))
    ensures forall x :: x in Insert(sorted, item) <==> x in sorted || x == item
  {
    hide Less;
    var result := Insert(sorted, item);
    if sorted != [] {
      assert sorted == [sorted[0]] + sorted[1..];
      if sorted[0] == item {
      } else if Less(item, sorted[0]) {
        forall j | 0 <= j < |sorted|
          ensures Less(item, sorted[j])
        {
          if j > 0 { LessIsTransitive(item, sorted[0], sorted[j]); }
        }
      } else {
        LessIsTotal(item, sorted[0]);
        InsertSorts(sorted[1..], item);
        forall j | 0 <= j < |Insert(sorted[1..], item)|
          ensures Less(sorted[0], Insert(sorted[1..], item)[j])
        {
          var x := Insert(sorted[1..], item)[j];
          assert x in Insert(sorted[1..], item);
          if x != item {
            var k :| 0 <= k < |sorted[1..]| && sorted[1..][k] == x;
            assert sorted[k + 1] == x;
          }
        }
      }
    }
  }

  /** The boards are printed sorted and without repetitions, none lost and none added. */
  lemma {:induction false} SortedSetMeaning(items: seq<string>)
    ensures StrictlySorted(SortedSet(items))
    ensures forall x :: x in SortedSet(items) <==> x in items
  {
    if items != [] {
      SortedSetMeaning(items[1..]);
      InsertSorts(SortedSet(items[1..]), items[0]);
      assert items == [items[0]] + items[1..];
    }
  }

  function BoardsOf(args: Arguments): seq<string> {
    SortedSet(args.compatibleBoards)
  }

  function SignedLines(args: Arguments): seq<string> {
    [ MANIFEST_HEADER,
      Line("type", args.artifactType.AsStr()),
      Line("id", args.artifactId),
      Line("version", args.version),
      Line("security_version", Decimal.PrintInt(args.securityVersion)),
      Line("arch", args.arch),
      Line("compatible_boards", Join(BoardsOf(args), ',')),
      Line("destination", ExpectedDestination(args.artifactType, args.artifactId)),
      Line("sha256", args.digest),
      Line("size", Decimal.Print(args.payloadSize)),
      Line("url", args.url) ]
  }

  /** Every field the tool checks is non-empty and on one line. */
  ghost predicate CheckedFields(args: Arguments) {
    && SingleLine(args.artifactId) && SingleLine(args.version) && SingleLine(args.arch) && SingleLine(args.url)
    && forall board :: board in args.compatibleBoards ==> SingleLine(board)
  }

  /** `canonical_manifest`. */
  function CanonicalManifest(args: Arguments): Result<string> {
    var boards := BoardsOf(args);
    if boards == [] && args.artifactType != Firmware then Err(InvalidInput("at least one compatible board is required"))
    else
      var fields := [args.artifactId, args.version, args.arch, args.url] + boards;
      if exists value :: value in fields && (value == "" || '\n' in value || '\r' in value) then
        Err(InvalidInput("manifest fields must be non-empty single-line values"))
      else Ok(Terminated(SignedLines(args)))
  }

  /** The manifest that the arguments describe. */
  function ManifestOf(args: Arguments): ArtifactManifest
    requires args.securityVersion >= 0
  {
    ArtifactManifest(args.artifactType, args.artifactId, args.version, args.securityVersion, args.arch, BoardsOf(args),
                     ExpectedDestination(args.artifactType, args.artifactId), args.digest, args.payloadSize, args.url)
  }

  lemma SignerAccepts(args: Arguments)
    ensures CanonicalManifest(args).Ok? <==>
              CheckedFields(args) && (args.compatibleBoards != [] || args.artifactType == Firmware)
  {
    hide SortedSet, ExpectedDestination, Join, Terminated, SignedLines;
    SortedSetMeaning(args.compatibleBoards);
    var boards := BoardsOf(args);
    var fields := [args.artifactId, args.version, args.arch, args.url] + boards;
    assert boards == [] <==> args.compatibleBoards == [] by {
      if boards != [] { assert boards[0] in args.compatibleBoards; }
      if args.compatibleBoards != [] { assert args.compatibleBoards[0] in boards; }
    }
    assert fields[0] == args.artifactId && fields[1] == args.version && fields[2] == args.arch && fields[3] == args.url;
    forall board | board in boards
      ensures board in fields
    {
      var i :| 0 <= i < |boards| && boards[i] == board;
      assert fields[i + 4] == board;
    }
    assert forall value :: value in fields ==> value in boards || value in fields[..4];
    assert (forall value :: value in fields ==> SingleLine(value)) <==> CheckedFields(args);
  }

  lemma PrintedIntIsPlain(n: int)
    ensures Plain(Decimal.PrintInt(n))
  {
  }

  lemma CheckedBoardsArePlain(args: Arguments)
    requires CheckedFields(args)
    ensures Plain(Join(BoardsOf(args), ','))
    ensures (Join(BoardsOf(args), ',') == "") == (args.compatibleBoards == [])
  {
    hide SortedSet;
    var boards := BoardsOf(args);
    SortedSetMeaning(args.compatibleBoards);
    JoinHolds(boards, ',', '\n');
    JoinHolds(boards, ',', '\r');
    if boards != [] {
      assert boards[0] in args.compatibleBoards;
    }
    if args.compatibleBoards != [] {
      assert args.compatibleBoards[0] in boards;
    }
  }

  lemma CheckedValuesArePlain(args: Arguments)
    requires CheckedFields(args) && ValidDigest(args.digest)
    ensures Plain(args.artifactId) && Plain(args.version) && Plain(args.arch) && Plain(args.url) && Plain(args.digest)
    ensures Plain(ExpectedDestination(args.artifactType, args.artifactId))
    ensures Plain(Join(BoardsOf(args), ','))
    ensures (Join(BoardsOf(args), ',') == "") == (args.compatibleBoards == [])
  {
    hide BoardsOf, Join;
    CheckedBoardsArePlain(args);
  }

  lemma SignedLinesArePlain(args: Arguments)
    requires CheckedFields(args) && ValidDigest(args.digest)
    ensures forall line :: line in SignedLines(args) ==> Plain(line)
  {
    hide Line, Join, Decimal.Print, Decimal.PrintInt, Plain, CheckedFields, ExpectedDestination, BoardsOf, ValidDigest;
    PlainHeader();
    PlainLongNames();
    PlainShortNames();
    PlainTypeName(args.artifactType);
    CheckedValuesArePlain(args);
    PrintedIntIsPlain(args.securityVersion);
    PrintedIntIsPlain(args.payloadSize);
    assert Decimal.PrintInt(args.payloadSize) == Decimal.Print(args.payloadSize) by { PrintedNat(args.payloadSize); }
    PlainLine("type", args.artifactType.AsStr());
    PlainLine("id", args.artifactId);
    PlainLine("version", args.version);
    PlainLine("security_version", Decimal.PrintInt(args.securityVersion));
    PlainLine("arch", args.arch);
    PlainLine("compatible_boards", Join(BoardsOf(args), ','));
    PlainLine("destination", ExpectedDestination(args.artifactType, args.artifactId));
    PlainLine("sha256", args.digest);
    PlainLine("size", Decimal.Print(args.payloadSize));
    PlainLine("url", args.url);
  }

  lemma PrintedNat(n: nat)
    ensures Decimal.PrintInt(n) == Decimal.Print(n)
  {
  }

  lemma SignedSplits(args: Arguments)
    requires CheckedFields(args) && ValidDigest(args.digest)
    ensures var text := Terminated(SignedLines(args));
            && text != "" && text[|text| - 1] == '\n' && '\r' !in text
            && Split(text[..|text| - 1], '\n') == SignedLines(args)
  {
    hide Split, Terminated, Line, Join, Decimal.Print, Decimal.PrintInt, CheckedFields;
    SignedLinesArePlain(args);
    TerminatedSplits(SignedLines(args));
    TerminatedHolds(SignedLines(args), '\r');
  }

  /** Whether the numbers fit the device's integers. */
  predicate NumbersFit(args: Arguments) {
    0 <= args.securityVersion < 0x1_0000_0000 && args.payloadSize < USIZE_LIMIT
  }

  /** The manifest that a device sees: a comma in a board name separates two boards. */
  function ManifestReadBack(args: Arguments): ArtifactManifest
    requires args.securityVersion >= 0
  {
    ManifestOf(args).(compatibleBoards := Split(Join(BoardsOf(args), ','), ','))
  }

  lemma SignedFields(args: Arguments)
    requires CheckedFields(args) && ValidDigest(args.digest)
    ensures Fields(SignedLines(args)).Ok? <==> NumbersFit(args) && args.compatibleBoards != []
    ensures Fields(SignedLines(args)).Ok? ==> Fields(SignedLines(args)) == Ok(ManifestReadBack(args))
  {
    hide Line, Join, Split, Field, Decimal.Print, Decimal.PrintInt, Decimal.Parse, SortedSet, ExpectedDestination,
      ParseType;
    SignedFieldsRead(args);
    TypeReads(args.artifactType);
    Decimal.ParsePrint(args.securityVersion, 0x1_0000_0000);
    Decimal.ParsePrint(args.payloadSize, USIZE_LIMIT);
    PrintedNat(args.payloadSize);
  }

  lemma TypeReads(artifactType: ArtifactType)
    ensures artifactType.AsStr() != "" && ParseType(artifactType.AsStr()) == Ok(artifactType)
  {
  }

  lemma EmptyField(name: string)
    ensures Field(Line(name, ""), name).Err?
  {
  }

  lemma PrintedIsNotEmpty(n: int)
    ensures Decimal.PrintInt(n) != ""
  {
  }

  lemma SignedFieldsRead(args: Arguments)
    requires CheckedFields(args) && ValidDigest(args.digest)
    ensures var lines := SignedLines(args);
            && Field(lines[1], "type") == Ok(args.artifactType.AsStr())
            && Field(lines[2], "id") == Ok(args.artifactId)
            && Field(lines[3], "version") == Ok(args.version)
            && Field(lines[4], "security_version") == Ok(Decimal.PrintInt(args.securityVersion))
            && Field(lines[5], "arch") == Ok(args.arch)
            && (if args.compatibleBoards == [] then Field(lines[6], "compatible_boards").Err?
                else Field(lines[6], "compatible_boards") == Ok(Join(BoardsOf(args), ',')))
            && Field(lines[7], "destination") == Ok(ExpectedDestination(args.artifactType, args.artifactId))
            && Field(lines[8], "sha256") == Ok(args.digest)
            && Field(lines[9], "size") == Ok(Decimal.Print(args.payloadSize))
            && Field(lines[10], "url") == Ok(args.url)
  {
    hide Line, Join, Split, Field, Decimal.Print, Decimal.PrintInt, SortedSet;
    TypeReads(args.artifactType);
    CheckedValuesArePlain(args);
    PrintedIsNotEmpty(args.securityVersion);
    EmptyField("compatible_boards");
    FieldOfLine("type", args.artifactType.AsStr());
    FieldOfLine("id", args.artifactId);
    FieldOfLine("version", args.version);
    FieldOfLine("security_version", Decimal.PrintInt(args.securityVersion));
    FieldOfLine("arch", args.arch);
    if args.compatibleBoards != [] {
      FieldOfLine("compatible_boards", Join(BoardsOf(args), ','));
    }
    FieldOfLine("destination", ExpectedDestination(args.artifactType, args.artifactId));
    FieldOfLine("sha256", args.digest);
    FieldOfLine("size", Decimal.Print(args.payloadSize));
    FieldOfLine("url", args.url);
  }

  /** The manifest says what the arguments say, apart from the boards. */
  ghost predicate Describes(m: ArtifactManifest, args: Arguments) {
    && m.artifactType == args.artifactType && m.id == args.artifactId && m.version == args.version
    && m.securityVersion == args.securityVersion && m.arch == args.arch
    && m.sha256 == args.digest && m.size == args.payloadSize && m.url == args.url
  }

  /** The tool's output on any arguments it accepts: a device reads back what the
      arguments describe exactly when the numbers fit, there is a board and the
      shape is valid. Firmware signed without a board is thus refused by every device. */
  lemma DeviceReadsSignedManifest(args: Arguments)
    requires CanonicalManifest(args).Ok? && ValidDigest(args.digest)
    ensures Parse(CanonicalManifest(args).value).Ok? <==>
              NumbersFit(args) && args.compatibleBoards != [] && ValidShape(ManifestReadBack(args))
    ensures Parse(CanonicalManifest(args).value).Ok? ==>
              Parse(CanonicalManifest(args).value) == Ok(ManifestReadBack(args))
    ensures Parse(CanonicalManifest(args).value).Ok? ==> Describes(Parse(CanonicalManifest(args).value).value, args)
  {
    hide Split, Terminated, Fields, ValidateShape, ValidShape, CheckedFields, Line, Join, BoardsOf, ValidDigest,
      Decimal.Print;
    SignerAccepts(args);
    SignedSplits(args);
    SignedFields(args);
    if NumbersFit(args) {
      JoinSplit(Join(BoardsOf(args), ','), ',');
      assert SignedLines(args) == CanonicalLines(ManifestReadBack(args)) by { PrintedNat(args.securityVersion); }
      ShapeMeaning(ManifestReadBack(args));
    }
  }

  /** The device reads exactly what was asked for, the boards sorted and without
      repetitions, when there is a board, no board name holds a comma, the numbers
      fit and the manifest has a valid shape; and only then. */
  lemma PlainBoardsReadBack(args: Arguments)
    requires CanonicalManifest(args).Ok? && ValidDigest(args.digest) && args.securityVersion >= 0
    ensures Parse(CanonicalManifest(args).value) == Ok(ManifestOf(args)) <==>
              && args.compatibleBoards != [] && (forall board :: board in args.compatibleBoards ==> ',' !in board)
              && NumbersFit(args) && ValidShape(ManifestOf(args))
    ensures StrictlySorted(ManifestOf(args).compatibleBoards)
    ensures forall board :: board in ManifestOf(args).compatibleBoards <==> board in args.compatibleBoards
  {
    hide Parse, CanonicalManifest, ValidShape, NumbersFit, ManifestReadBack, ManifestOf;
    DeviceReadsSignedManifest(args);
    PlainBoards(args);
  }

  lemma PlainBoards(args: Arguments)
    requires args.securityVersion >= 0
    ensures ManifestReadBack(args) == ManifestOf(args) <==>
              args.compatibleBoards != [] && forall board :: board in args.compatibleBoards ==> ',' !in board
    ensures StrictlySorted(ManifestOf(args).compatibleBoards)
    ensures forall board :: board in ManifestOf(args).compatibleBoards <==> board in args.compatibleBoards
  {
    SortedSetMeaning(args.compatibleBoards);
    if args.compatibleBoards != [] {
      assert args.compatibleBoards[0] in BoardsOf(args);
    }
    if args.compatibleBoards != [] && forall board :: board in args.compatibleBoards ==> ',' !in board {
      SplitJoin(BoardsOf(args), ',');
    } else if args.compatibleBoards != [] {
      var board :| board in args.compatibleBoards && ',' in board;
      assert board in BoardsOf(args);
    }
  }

  /** One board with a comma in its name: the device refuses the text, or takes it
      for one with two boards. It does the latter exactly when, the rest being in
      order, the two halves are themselves boards in ascending order. */
  lemma TwoBoardsForOne(args: Arguments, left: string, right: string)
    requires CanonicalManifest(args).Ok? && ValidDigest(args.digest)
    requires args.compatibleBoards == [left + "," + right] && ',' !in left && ',' !in right
    ensures var read := Parse(CanonicalManifest(args).value);
            && (read.Ok? ==> read.value.compatibleBoards == [left, right])
            && (read.Ok? <==>
                  && NumbersFit(args)
                  && ValidShape(ManifestOf(args).(compatibleBoards := [left, right])))
            && (read.Ok? ==> ValidIdentifier(left) && ValidIdentifier(right) && Less(left, right))
  {
    hide Parse, CanonicalManifest, ManifestOf, ValidIdentifier, ValidVersion, SupportedArch, ValidDigest, ValidUrl,
      ExpectedDestination;
    DeviceReadsSignedManifest(args);
    if NumbersFit(args) {
      TwoBoardsRead(args, left, right);
      var m := ManifestOf(args).(compatibleBoards := [left, right]);
      assert m.compatibleBoards[0] == left && m.compatibleBoards[1] == right;
      assert left in m.compatibleBoards && right in m.compatibleBoards;
    }
  }

  lemma TwoBoardsRead(args: Arguments, left: string, right: string)
    requires args.securityVersion >= 0 && args.compatibleBoards == [left + "," + right]
    requires ',' !in left && ',' !in right
    ensures ManifestReadBack(args) == ManifestOf(args).(compatibleBoards := [left, right])
  {
    var board := left + [','] + right;
    assert args.compatibleBoards[1..] == [] && SortedSet([]) == [];
    assert BoardsOf(args) == [board] && Join([board], ',') == board;
    SplitHead(left, right, ',');
    SplitWhole(right, ',');
  }
}
