/** How Recovery turns the verified manifests of a catalog into the files of one
    bundle, and why no two of these files ever meet. */
module BundleAssembly {
  import opened Text
  import opened Paths
  import opened Storage
  import opened Manifest
  import opened Generation
  import opened BundleTransaction
  import opened Recovery
  import Decimal
  import AntiRollback

  datatype Part = Payload | SignedManifest | Signature {
    function Suffix(): string {
      match this
      case Payload => ""
      case SignedManifest => ".manifest"
      case Signature => ".manifest.sig"
    }

    function StageSuffix(): string {
      match this
      case Payload => "-payload"
      case SignedManifest => "-manifest"
      case Signature => "-manifest-signature"
    }
  }

  const BOARD_COPY := "config/board.json"
  const FIRMWARE_COPY := "config/firmware"

  /** One file of the bundle: the text it is named after, and which part of which artifact it is. */
  datatype Derived = Derived(artifact: nat, base: string, part: Part) {
    function Path(): string {
      base + part.Suffix()
    }

    function File(): BundleFile {
      BundleFile(Path(), Copied(DownloadPath(artifact, part)))
    }
  }

  /** Where the parts of the artifact selected as number `n` are downloaded to. */
  function DownloadPath(n: nat, part: Part): Path {
    DOWNLOAD_DIR + [Decimal.Print(n) + part.StageSuffix()]
  }

  function FirmwarePath(n: nat): Path {
    DOWNLOAD_DIR + [Decimal.Print(n) + "-firmware.bin"]
  }

  /** The files that the artifact selected as number `n` contributes. */
  function DerivedFrom(n: nat, m: ArtifactManifest): seq<Derived> {
    match m.artifactType
    case Firmware => [Derived(n, FIRMWARE_COPY, SignedManifest), Derived(n, FIRMWARE_COPY, Signature)]
    case Board =>
      [ Derived(n, BOARD_COPY, Payload),
        Derived(n, m.destination, Payload),
        Derived(n, m.destination, SignedManifest), Derived(n, m.destination, Signature),
        Derived(n, BOARD_COPY, SignedManifest), Derived(n, BOARD_COPY, Signature) ]
    case _ =>
      [ Derived(n, m.destination, Payload),
        Derived(n, m.destination, SignedManifest), Derived(n, m.destination, Signature) ]
  }

  function AllDerived(selected: seq<ArtifactManifest>): seq<Derived> {
    if selected == [] then []
    else
      var n := |selected| - 1;
      AllDerived(selected[..n]) + DerivedFrom(n, selected[n])
  }

  function CountOf(selected: seq<ArtifactManifest>, artifactType: ArtifactType): nat {
    if selected == [] then 0
    else
      var n := |selected| - 1;
      CountOf(selected[..n], artifactType) + (if selected[n].artifactType == artifactType then 1 else 0)
  }

  predicate LowerOrDigit(c: char) {
    'a' <= c <= 'z' || '0' <= c <= '9'
  }

  /** `validate_catalog_id`. */
  predicate ValidCatalogId(id: string) {
    && 0 < |id| <= 63
    && LowerOrDigit(id[0]) && LowerOrDigit(id[|id| - 1])
    && (forall c :: c in id ==> LowerOrDigit(c) || c == '-' || c == '.')
    && forall i :: 0 <= i < |id| - 1 ==> !(id[i] == '.' && id[i + 1] == '.')
  }

  function FilesFrom(derived: seq<Derived>): (files: seq<BundleFile>)
    ensures |files| == |derived|
    ensures forall k :: 0 <= k < |derived| ==> files[k] == derived[k].File()
  {
    seq(|derived|, k requires 0 <= k < |derived| => derived[k].File())
  }

  lemma FilesFromParts(derived: seq<Derived>, more: seq<Derived>)
    ensures FilesFrom(derived + more) == FilesFrom(derived) + FilesFrom(more)
  {
  }

  /** What artifact `m` puts in the place `text`: every artifact but the firmware its
      payload, manifest and signature at its destination, the board these once more
      as the board in use, the firmware its manifest and signature. */
  predicate NamesPart(m: ArtifactManifest, text: string, part: Part) {
    match part
    case Payload =>
      || (m.artifactType != Firmware && text == m.destination)
      || (m.artifactType == Board && text == "config/board.json")
    case SignedManifest =>
      || (m.artifactType != Firmware && text == m.destination + ".manifest")
      || (m.artifactType == Board && text == "config/board.json.manifest")
      || (m.artifactType == Firmware && text == "config/firmware.manifest")
    case Signature =>
      || (m.artifactType != Firmware && text == m.destination + ".manifest.sig")
      || (m.artifactType == Board && text == "config/board.json.manifest.sig")
      || (m.artifactType == Firmware && text == "config/firmware.manifest.sig")
  }

  predicate IsFileOf(n: nat, m: ArtifactManifest, file: BundleFile, part: Part) {
    NamesPart(m, file.path, part) && file.contents == Copied(DownloadPath(n, part))
  }

  /** The derived files of an artifact are those: none is missing and none is added. */
  lemma DerivedMeaning(n: nat, m: ArtifactManifest, text: string, part: Part)
    ensures NamesPart(m, text, part) <==> exists d :: d in DerivedFrom(n, m) && d.Path() == text && d.part == part
    ensures forall d :: d in DerivedFrom(n, m) ==> d.artifact == n
  {
    SuffixTexts(m.destination);
    var derived := DerivedFrom(n, m);
    if NamesPart(m, text, part) {
      var onDestination := Derived(n, m.destination, part);
      var onCopy := Derived(n, if m.artifactType == Firmware then FIRMWARE_COPY else BOARD_COPY, part);
      assert m.artifactType != Firmware ==> onDestination in derived;
      assert m.artifactType == Board || (m.artifactType == Firmware && part != Payload) ==> onCopy in derived;
      assert onDestination.Path() == text || onCopy.Path() == text;
    }
  }

  lemma SuffixTexts(base: string)
    ensures base + Payload.Suffix() == base
    ensures base + SignedManifest.Suffix() == base + ".manifest" && base + Signature.Suffix() == base + ".manifest.sig"
    ensures FIRMWARE_COPY + SignedManifest.Suffix() == "config/firmware.manifest"
    ensures FIRMWARE_COPY + Signature.Suffix() == "config/firmware.manifest.sig"
    ensures BOARD_COPY + Payload.Suffix() == "config/board.json"
    ensures BOARD_COPY + SignedManifest.Suffix() == "config/board.json.manifest"
    ensures BOARD_COPY + Signature.Suffix() == "config/board.json.manifest.sig"
  {
  }

  lemma FilesOfDerived(n: nat, m: ArtifactManifest)
    ensures forall file :: file in FilesFrom(DerivedFrom(n, m)) <==> exists part :: IsFileOf(n, m, file, part)
  {
    hide DownloadPath, DerivedFrom, NamesPart;
    var derived := DerivedFrom(n, m);
    var files := FilesFrom(derived);
    forall file
      ensures file in files <==> exists part :: IsFileOf(n, m, file, part)
    {
      if file in files {
        var k :| 0 <= k < |files| && files[k] == file;
        assert derived[k] in derived;
        DerivedMeaning(n, m, file.path, derived[k].part);
        assert IsFileOf(n, m, file, derived[k].part);
      }
      if part :| IsFileOf(n, m, file, part) {
        DerivedMeaning(n, m, file.path, part);
        var d :| d in derived && d.Path() == file.path && d.part == part;
        var k :| 0 <= k < |derived| && derived[k] == d;
        assert files[k] == file;
      }
    }
  }

  /** All derived files are those of the artifacts. */
  lemma {:induction false} AllDerivedMeaning(selected: seq<ArtifactManifest>, d: Derived)
    ensures d in AllDerived(selected) <==> d.artifact < |selected| && d in DerivedFrom(d.artifact, selected[d.artifact])
    decreases |selected|
  {
    hide DerivedFrom;
    if selected != [] {
      var n := |selected| - 1;
      AllDerivedMeaning(selected[..n], d);
      DerivedMeaning(n, selected[n], "", Payload);
    }
  }

  /** The body of the assembly loop: the files of the artifact downloaded as number `n`. */
  method FilesOfArtifact(n: nat, m: ArtifactManifest) returns (files: seq<BundleFile>)
    ensures files == FilesFrom(DerivedFrom(n, m))
    ensures forall file :: file in files <==> exists part :: IsFileOf(n, m, file, part)
  {
    FilesOfDerived(n, m);
    hide Decimal.Print;
    var payload := Copied(DownloadPath(n, Payload));
    var manifest := Copied(DownloadPath(n, SignedManifest));
    var signature := Copied(DownloadPath(n, Signature));
    assert FIRMWARE_COPY + ".manifest" == "config/firmware.manifest";
    assert FIRMWARE_COPY + ".manifest.sig" == "config/firmware.manifest.sig";
    assert BOARD_COPY + ".manifest" == "config/board.json.manifest";
    assert BOARD_COPY + ".manifest.sig" == "config/board.json.manifest.sig";
    assert m.destination + "" == m.destination && BOARD_COPY + "" == BOARD_COPY;
    files := [];
    if m.artifactType == Firmware {
      files := files + [BundleFile("config/firmware.manifest", manifest)];
      files := files + [BundleFile("config/firmware.manifest.sig", signature)];
    } else {
      if m.artifactType == Board {
        files := files + [BundleFile("config/board.json", payload)];
      }
      files := files + [BundleFile(m.destination, payload)];
      files := files + [BundleFile(m.destination + ".manifest", manifest)];
      files := files + [BundleFile(m.destination + ".manifest.sig", signature)];
      if m.artifactType == Board {
        files := files + [BundleFile("config/board.json.manifest", manifest)];
        files := files + [BundleFile("config/board.json.manifest.sig", signature)];
      }
    }
  }

  // ----- Downloading -----

  /** What a download delivers, and whether its size and digest are the signed ones. */
  datatype Delivery = Delivery(data: Bytes, verified: bool)

  datatype Catalog = Catalog(payload: nat -> Delivery, signature: nat -> Bytes)

  function DataOf(selected: seq<ArtifactManifest>, catalog: Catalog, n: nat, part: Part): Bytes
    requires n < |selected|
  {
    match part
    case Payload => catalog.payload(n).data
    case SignedManifest => Canonical(selected[n])
    case Signature => catalog.signature(n)
  }

  predicate HoldsAt(files: Files, path: Path, data: Bytes) {
    path in files && files[path] == data
  }

  /** What stands behind the number in a file name of the download directory; the
      firmware image has a name of its own. */
  function Ending(part: Option<Part>): string {
    match part
    case None => "firmware.bin"
    case Some(Payload) => "payload"
    case Some(SignedManifest) => "manifest"
    case Some(Signature) => "manifest-signature"
  }

  function NumberedPath(n: nat, part: Option<Part>): Path {
    if part.None? then FirmwarePath(n) else DownloadPath(n, part.value)
  }

  function PayloadOf(m: ArtifactManifest): Option<Part> {
    if m.artifactType == Firmware then None else Some(Payload)
  }

  /** The parts of artifact `n` are in the download directory. */
  ghost predicate Downloaded(files: Files, selected: seq<ArtifactManifest>, catalog: Catalog, n: nat)
    requires n < |selected|
  {
    && HoldsAt(files, NumberedPath(n, PayloadOf(selected[n])), catalog.payload(n).data)
    && HoldsAt(files, NumberedPath(n, Some(SignedManifest)), Canonical(selected[n]))
    && HoldsAt(files, NumberedPath(n, Some(Signature)), catalog.signature(n))
  }

  lemma NumberedNames(a: string, x: string, b: string, y: string)
    requires '-' !in a && '-' !in b && a + "-" + x == b + "-" + y
    ensures a == b && x == y
  {
    var text := a + "-" + x;
    assert text == b + "-" + y && text[|a|] == '-' && text[|b|] == '-';
    assert forall i :: 0 <= i < |a| ==> text[i] == a[i] != '-';
    assert forall i :: 0 <= i < |b| ==> text[i] == b[i] != '-';
    assert |a| == |b|;
    assert text[..|a|] == a && text[..|b|] == b;
    assert text[|a| + 1..] == x && text[|b| + 1..] == y;
  }

  lemma EndingsDiffer(part: Option<Part>, other: Option<Part>)
    requires Ending(part) == Ending(other)
    ensures part == other
  {
    assert |Ending(None)| == 12 && |Ending(Some(Payload))| == 7;
    assert |Ending(Some(SignedManifest))| == 8 && |Ending(Some(Signature))| == 18;
  }

  lemma NumberedName(n: nat, part: Option<Part>)
    ensures NumberedPath(n, part) == DOWNLOAD_DIR + [Decimal.Print(n) + "-" + Ending(part)]
    ensures '-' !in Decimal.Print(n)
  {
    hide Decimal.Print;
    assert "-firmware.bin" == "-" + "firmware.bin" && "-payload" == "-" + "payload";
    assert "-manifest" == "-" + "manifest" && "-manifest-signature" == "-" + "manifest-signature";
    assert Decimal.Print(n) + "-" + Ending(part) == Decimal.Print(n) + ("-" + Ending(part));
  }

  /** No two downloads go to the same file. */
  lemma DownloadsApart(n: nat, part: Option<Part>, m: nat, other: Option<Part>)
    requires NumberedPath(n, part) == NumberedPath(m, other)
    ensures n == m && part == other
  {
    hide Decimal.Print, NumberedPath, Ending;
    var a, b := Decimal.Print(n), Decimal.Print(m);
    NumberedName(n, part);
    NumberedName(m, other);
    assert NumberedPath(n, part)[1] == a + "-" + Ending(part) && NumberedPath(m, other)[1] == b + "-" + Ending(other);
    NumberedNames(a, Ending(part), b, Ending(other));
    EndingsDiffer(part, other);
    Decimal.ValueOfPrint(n);
    Decimal.ValueOfPrint(m);
  }

  /** The download directory with the parts of artifact `n` added. */
  function WithParts(files: Files, selected: seq<ArtifactManifest>, catalog: Catalog, n: nat): Files
    requires n < |selected|
  {
    files[NumberedPath(n, PayloadOf(selected[n])) := catalog.payload(n).data]
         [NumberedPath(n, Some(SignedManifest)) := Canonical(selected[n])]
         [NumberedPath(n, Some(Signature)) := catalog.signature(n)]
  }

  lemma PartsAdded(files: Files, selected: seq<ArtifactManifest>, catalog: Catalog, n: nat)
    requires n < |selected|
    ensures Downloaded(WithParts(files, selected, catalog, n), selected, catalog, n)
    ensures forall m :: 0 <= m < n && Downloaded(files, selected, catalog, m) ==>
              Downloaded(WithParts(files, selected, catalog, n), selected, catalog, m)
  {
    hide NumberedPath, Canonical;
    PartsApart(n);
  }

  /** One round of the assembly loop, after its checks: download the payload and
      write the signed manifest and the signature beside it. */
  method DownloadArtifact(device: Device, selected: seq<ArtifactManifest>, catalog: Catalog, n: nat)
    returns (r: Result<()>)
    requires n < |selected|
    modifies device`files, device`clock, device`halted
    ensures SameButDownloads(old(device.files), device.files)
    ensures r.Ok? ==>
              catalog.payload(n).verified && device.files == WithParts(old(device.files), selected, catalog, n)
              && !device.halted
    ensures r.Err? && catalog.payload(n).verified ==>
              old(device.halted) || !device.QuietBetween(old(device.clock), device.clock)
    ensures old(device.clock) <= device.clock && (old(device.halted) ==> device.halted && r.Err?)
  {
    hide NumberedPath, Canonical;
    PartsApart(n);
    var ok := device.Write(NumberedPath(n, PayloadOf(selected[n])), catalog.payload(n).data);
    if !ok {
      return Err(Io);
    }
    if !catalog.payload(n).verified {
      return Err(InvalidData("payload"));
    }
    ok := device.Write(NumberedPath(n, Some(SignedManifest)), Canonical(selected[n]));
    if !ok {
      return Err(Io);
    }
    ok := device.Write(NumberedPath(n, Some(Signature)), catalog.signature(n));
    return if ok then Ok(()) else Err(Io);
  }

  lemma PartsApart(n: nat)
    ensures forall part, m: nat, other :: NumberedPath(n, part) == NumberedPath(m, other) ==> n == m && part == other
    ensures forall part :: DOWNLOAD_DIR <= NumberedPath(n, part)
  {
    hide NumberedPath, Decimal.Print;
    forall part, m: nat, other | NumberedPath(n, part) == NumberedPath(m, other)
      ensures n == m && part == other
    {
      DownloadsApart(n, part, m, other);
    }
    forall part
      ensures DOWNLOAD_DIR <= NumberedPath(n, part)
    {
      NumberedName(n, part);
    }
  }

  /** What the assembly needs of the selected artifacts and of the catalog. */
  ghost predicate Assemblable(selected: seq<ArtifactManifest>, catalog: Catalog) {
    && CountOf(selected, Firmware) == 1
    && DistinctDestinations(selected)
    && forall i :: 0 <= i < |selected| ==> ValidCatalogId(selected[i].id) && catalog.payload(i).verified
  }

  /** A new, empty download directory. */
  method OpenDownloads(device: Device) returns (ok: bool)
    modifies device`files, device`clock, device`halted
    ensures SameButDownloads(old(device.files), device.files)
    ensures ok ==> !device.halted
    ensures !ok ==> old(device.halted) || !device.QuietBetween(old(device.clock), device.clock)
    ensures old(device.clock) <= device.clock
  {
    if TreeExists(device.files, DOWNLOAD_DIR) {
      ok := device.RemoveTree(DOWNLOAD_DIR);
      if !ok {
        return;
      }
    }
    ok := device.Attempt();
  }

  /** The assembly loop of `recovery_download_board_bundle_for`, with the download
      directory it fills: the bundle files, and the number of the firmware. */
  method Assemble(device: Device, selected: seq<ArtifactManifest>, catalog: Catalog)
    returns (r: Result<(seq<BundleFile>, nat)>)
    modifies device`files, device`clock, device`halted
    ensures SameButDownloads(old(device.files), device.files)
    ensures r.Ok? ==> Assemblable(selected, catalog) && !device.halted
    ensures r.Ok? ==> r.value.0 == FilesFrom(AllDerived(selected))
    ensures r.Ok? ==> r.value.1 < |selected| && selected[r.value.1].artifactType == Firmware
    ensures r.Ok? ==> forall n :: 0 <= n < |selected| ==> Downloaded(device.files, selected, catalog, n)
    ensures r.Err? && Assemblable(selected, catalog) ==>
              old(device.halted) || !device.QuietBetween(old(device.clock), device.clock)
    ensures old(device.clock) <= device.clock && (old(device.halted) ==> device.halted && r.Err?)
  {
    hide DerivedFrom, FilesFrom, ValidCatalogId, CountOf, AllDerived, Downloaded, SameButDownloads, WithParts;
    SameDownloads(device.files);
    var files: seq<BundleFile>, firmware: Option<nat> := [], None;
    assert selected[..0] == [];
    NothingDerived();
    NothingCounted();
    var destinations: set<string> := {};
    for downloaded := 0 to |selected|
      invariant old(device.clock) <= device.clock
      invariant if downloaded == 0 then device.halted == old(device.halted) else !device.halted && !old(device.halted)
      invariant SameButDownloads(old(device.files), device.files)
      invariant destinations == set i | 0 <= i < downloaded :: selected[i].destination
      invariant forall i, j :: 0 <= i < j < downloaded ==> selected[i].destination != selected[j].destination
      invariant forall i :: 0 <= i < downloaded ==> ValidCatalogId(selected[i].id) && catalog.payload(i).verified
      invariant files == FilesFrom(AllDerived(selected[..downloaded]))
      invariant CountOf(selected[..downloaded], Firmware) == if firmware.Some? then 1 else 0
      invariant firmware.Some? ==> firmware.value < downloaded && selected[firmware.value].artifactType == Firmware
      invariant forall n :: 0 <= n < downloaded ==> Downloaded(device.files, selected, catalog, n)
    {
      var m := selected[downloaded];
      CountStep(selected, downloaded, Firmware);
      if m.destination in destinations {
        return Err(InvalidData("Signed bundle contains duplicate destination"));
      }
      destinations := destinations + {m.destination};
      if !ValidCatalogId(m.id) {
        return Err(InvalidData("catalog id"));
      }
      if m.artifactType == Firmware && firmware.Some? {
        OnlyOne(selected, Firmware, firmware.value, downloaded);
        return Err(InvalidData("Signed bundle contains multiple firmware images"));
      }
      firmware := if m.artifactType == Firmware then Some(downloaded) else firmware;
      ghost var before := device.files;
      var fetched := DownloadArtifact(device, selected, catalog, downloaded);
      DownloadsChain(old(device.files), before, device.files);
      PartsAdded(before, selected, catalog, downloaded);
      if fetched.Err? {
        return Err(fetched.error);
      }
      var more := FilesOfArtifact(downloaded, m);
      MoreFiles(selected, downloaded);
      files := files + more;
    }
    assert selected[..|selected|] == selected;
    if firmware.None? {
      return Err(InvalidData("Catalog has no compatible firmware image"));
    }
    return Ok((files, firmware.value));
  }

  lemma SameDownloads(files: Files)
    ensures SameButDownloads(files, files)
  {
  }

  lemma NothingCounted()
    ensures forall artifactType :: CountOf([], artifactType) == 0
  {
  }

  lemma CountStep(selected: seq<ArtifactManifest>, n: nat, artifactType: ArtifactType)
    requires n < |selected|
    ensures CountOf(selected[..n + 1], artifactType)
            == CountOf(selected[..n], artifactType) + (if selected[n].artifactType == artifactType then 1 else 0)
  {
    assert selected[..n + 1][..n] == selected[..n];
  }

  lemma MoreFiles(selected: seq<ArtifactManifest>, n: nat)
    requires n < |selected|
    ensures FilesFrom(AllDerived(selected[..n + 1]))
            == FilesFrom(AllDerived(selected[..n])) + FilesFrom(DerivedFrom(n, selected[n]))
  {
    hide DerivedFrom, FilesFrom, AllDerived;
    DerivedStep(selected, n);
    FilesFromParts(AllDerived(selected[..n]), DerivedFrom(n, selected[n]));
  }

  lemma DerivedStep(selected: seq<ArtifactManifest>, n: nat)
    requires n < |selected|
    ensures AllDerived(selected[..n + 1]) == AllDerived(selected[..n]) + DerivedFrom(n, selected[n])
  {
    hide DerivedFrom;
    assert selected[..n + 1][..n] == selected[..n];
  }

  lemma NothingDerived()
    ensures FilesFrom(AllDerived([])) == []
  {
  }

  ghost predicate DistinctDestinations(selected: seq<ArtifactManifest>) {
    forall i, j :: 0 <= i < j < |selected| ==> selected[i].destination != selected[j].destination
  }

  // ----- No two derived paths meet -----

  predicate ProperName(name: string) {
    name != "" && name != "." && name != ".."
  }

  /** A text that is already in its normal form names the file of its pieces. */
  ghost predicate Proper(text: string) {
    forall i :: 0 <= i < |Split(text, '/')| ==> ProperName(Split(text, '/')[i])
  }

  lemma {:induction false} ProperComponents(pieces: seq<string>, first: bool)
    requires forall i :: 0 <= i < |pieces| ==> ProperName(pieces[i])
    ensures Names(ComponentsOf(pieces, first)) == pieces
    ensures forall c :: c in ComponentsOf(pieces, first) ==> c.Normal?
  {
    if pieces != [] {
      assert ProperName(pieces[0]);
      ProperComponents(pieces[1..], false);
      assert pieces == [pieces[0]] + pieces[1..];
      assert ComponentsOf(pieces, first)[1..] == ComponentsOf(pieces[1..], false);
    }
  }

  lemma ProperKey(text: string)
    requires Proper(text)
    ensures Key(text) == Split(text, '/')
    ensures Plain(text) && '\t' !in text ==> ValidRelativePath(text)
  {
    var pieces := Split(text, '/');
    assert ProperName(pieces[0]);
    ProperComponents(pieces, true);
  }

  /** Different texts in normal form name different files. */
  lemma ProperKeysDiffer(text: string, other: string)
    requires Proper(text) && Proper(other) && Key(text) == Key(other)
    ensures text == other
  {
    ProperKey(text);
    ProperKey(other);
    JoinSplit(text, '/');
    JoinSplit(other, '/');
  }

  /** What a derived path is named after: a signed destination or one of the two copies. */
  ghost predicate ProperBase(base: string) {
    || base == FIRMWARE_COPY || base == BOARD_COPY
    || exists artifactType: ArtifactType, id: string ::
         artifactType != Firmware && ValidIdentifier(id) && base == ExpectedDestination(artifactType, id)
  }

  lemma TwoPieces(dir: string, name: string)
    requires '/' !in dir && '/' !in name
    ensures Split(dir + "/" + name, '/') == [dir, name]
  {
    SplitHead(dir, name, '/');
    SplitWhole(name, '/');
  }

  lemma ThreePieces(dir: string, sub: string, name: string)
    requires '/' !in dir && '/' !in sub && '/' !in name
    ensures Split(dir + "/" + (sub + "/" + name), '/') == [dir, sub, name]
  {
    SplitHead(dir, sub + "/" + name, '/');
    TwoPieces(sub, name);
  }

  /** Text that can stand inside one piece of a path. */
  predicate PlainPiece(text: string) {
    '/' !in text && Plain(text) && '\t' !in text
  }

  /** A derived path is in normal form, below one of three directories. */
  ghost predicate WellPlaced(text: string) {
    var pieces := Split(text, '/');
    && Proper(text) && Plain(text) && '\t' !in text
    && (pieces[0] == "config" || pieces[0] == "drivers" || pieces[0] == "wm")
  }

  lemma PlacedInDirectory(dir: string, name: string)
    requires dir == "config" || dir == "drivers" || dir == "wm"
    requires PlainPiece(name) && |name| > 2
    ensures WellPlaced(dir + "/" + name)
  {
    TwoPieces(dir, name);
    assert Split(dir + "/" + name, '/')[0] == dir;
  }

  lemma PlacedInBoards(name: string)
    requires PlainPiece(name) && |name| > 2
    ensures WellPlaced("config" + "/" + ("boards" + "/" + name))
  {
    ThreePieces("config", "boards", name);
    assert Split("config" + "/" + ("boards" + "/" + name), '/')[0] == "config";
  }

  lemma SuffixIsPlain(part: Part)
    ensures PlainPiece(part.Suffix())
  {
  }

  lemma ExtensionsArePlain()
    ensures PlainPiece(".json") && PlainPiece(".drv.elf") && PlainPiece(".wm.elf")
  {
  }

  lemma CopyNamesArePlain()
    ensures PlainPiece("firmware") && PlainPiece("board.json")
  {
  }

  lemma PlainPieces(first: string, second: string)
    requires PlainPiece(first) && PlainPiece(second)
    ensures PlainPiece(first + second)
  {
  }

  lemma IdentifierIsPlain(id: string)
    requires ValidIdentifier(id)
    ensures PlainPiece(id)
  {
  }

  /** The file name of a part of an artifact: its identifier, the extension of its type, the suffix of the part. */
  lemma PartNameIsPlain(id: string, extension: string, part: Part)
    requires ValidIdentifier(id) && PlainPiece(extension) && |extension| > 2
    ensures PlainPiece(id + (extension + part.Suffix())) && |id + (extension + part.Suffix())| > 2
  {
    hide PlainPiece, ValidIdentifier;
    IdentifierIsPlain(id);
    SuffixIsPlain(part);
    PlainPieces(extension, part.Suffix());
    PlainPieces(id, extension + part.Suffix());
  }

  lemma Regrouped(dir: string, id: string, extension: string, suffix: string)
    ensures dir + id + extension + suffix == dir + (id + (extension + suffix))
  {
  }

  lemma DestinationIsPlaced(artifactType: ArtifactType, id: string, part: Part)
    requires artifactType != Firmware && ValidIdentifier(id)
    ensures WellPlaced(ExpectedDestination(artifactType, id) + part.Suffix())
  {
    hide ValidIdentifier, WellPlaced, PlainPiece;
    ExtensionsArePlain();
    match artifactType {
      case Board =>
        PartNameIsPlain(id, ".json", part);
        PlacedInBoards(id + (".json" + part.Suffix()));
        Regrouped("config/boards/", id, ".json", part.Suffix());
        BoardsRegrouped(id + (".json" + part.Suffix()));
      case Driver =>
        PartNameIsPlain(id, ".drv.elf", part);
        PlacedInDirectory("drivers", id + (".drv.elf" + part.Suffix()));
        Regrouped("drivers/", id, ".drv.elf", part.Suffix());
        assert "drivers" + "/" == "drivers/";
      case WindowManager =>
        PartNameIsPlain(id, ".wm.elf", part);
        PlacedInDirectory("wm", id + (".wm.elf" + part.Suffix()));
        Regrouped("wm/", id, ".wm.elf", part.Suffix());
        assert "wm" + "/" == "wm/";
    }
  }

  lemma BoardsRegrouped(name: string)
    ensures "config" + "/" + ("boards" + "/" + name) == "config/boards/" + name
  {
    assert "config" + "/" + "boards" + "/" == "config/boards/";
    assert "config" + "/" + ("boards" + "/" + name) == ("config" + "/" + "boards" + "/") + name;
  }

  lemma CopyIsPlaced(name: string, part: Part)
    requires name == "board.json" || name == "firmware"
    ensures WellPlaced("config/" + name + part.Suffix())
  {
    hide WellPlaced, PlainPiece;
    CopyNamesArePlain();
    SuffixIsPlain(part);
    PlainPieces(name, part.Suffix());
    PlacedInDirectory("config", name + part.Suffix());
    assert "config" + "/" == "config/";
    assert "config/" + name + part.Suffix() == "config" + "/" + (name + part.Suffix());
  }

  lemma DerivedIsPlaced(d: Derived)
    requires ProperBase(d.base)
    ensures WellPlaced(d.Path())
  {
    hide WellPlaced, ExpectedDestination, ValidIdentifier;
    if d.base == FIRMWARE_COPY {
      CopyIsPlaced("firmware", d.part);
      assert d.Path() == "config/" + "firmware" + d.part.Suffix();
    } else if d.base == BOARD_COPY {
      CopyIsPlaced("board.json", d.part);
      assert d.Path() == "config/" + "board.json" + d.part.Suffix();
    } else {
      var artifactType: ArtifactType, id: string :|
        artifactType != Firmware && ValidIdentifier(id) && d.base == ExpectedDestination(artifactType, id);
      DestinationIsPlaced(artifactType, id, d.part);
    }
  }

  // ----- Distinct names -----

  predicate LastCharIs(text: string, c: char) {
    text != "" && text[|text| - 1] == c
  }

  lemma SuffixEnds(base: string, part: Part)
    ensures part == SignedManifest ==> LastCharIs(base + part.Suffix(), 't')
    ensures part == Signature ==> LastCharIs(base + part.Suffix(), 'g')
    ensures part == Payload ==> base + part.Suffix() == base
  {
    assert part == SignedManifest ==> LastCharIs(part.Suffix(), 't');
    assert part == Signature ==> LastCharIs(part.Suffix(), 'g');
  }

  lemma DestinationEnds(artifactType: ArtifactType, id: string)
    requires artifactType != Firmware
    ensures LastCharIs(ExpectedDestination(artifactType, id), 'n')
            || LastCharIs(ExpectedDestination(artifactType, id), 'f')
  {
    assert LastCharIs(".json", 'n') && LastCharIs(".drv.elf", 'f') && LastCharIs(".wm.elf", 'f');
  }

  lemma BaseEnds(base: string)
    requires ProperBase(base)
    ensures !LastCharIs(base, 't') && !LastCharIs(base, 'g')
  {
    hide ExpectedDestination, ValidIdentifier;
    assert LastCharIs(FIRMWARE_COPY, 'e') && LastCharIs(BOARD_COPY, 'n');
    if base != FIRMWARE_COPY && base != BOARD_COPY {
      var artifactType: ArtifactType, id: string :|
        artifactType != Firmware && ValidIdentifier(id) && base == ExpectedDestination(artifactType, id);
      DestinationEnds(artifactType, id);
    }
  }

  /** A path tells which part of what it is. */
  lemma PathTellsPart(d: Derived, other: Derived)
    requires ProperBase(d.base) && ProperBase(other.base) && d.Path() == other.Path()
    ensures d.base == other.base && d.part == other.part
  {
    hide ProperBase;
    BaseEnds(d.base);
    BaseEnds(other.base);
    SuffixEnds(d.base, d.part);
    SuffixEnds(other.base, other.part);
    assert d.part == other.part;
    assert d.base == d.Path()[..|d.Path()| - |d.part.Suffix()|];
    assert other.base == other.Path()[..|d.Path()| - |d.part.Suffix()|];
  }

  lemma CopiesAreNoDestinations(artifactType: ArtifactType, id: string)
    requires artifactType != Firmware
    ensures ExpectedDestination(artifactType, id) != BOARD_COPY
            && ExpectedDestination(artifactType, id) != FIRMWARE_COPY
    ensures BOARD_COPY != FIRMWARE_COPY
  {
    assert BOARD_COPY[0] == FIRMWARE_COPY[0] == 'c' && "drivers/"[0] == 'd' && "wm/"[0] == 'w';
    assert BOARD_COPY[12] == '.' && "config/boards/"[12] == 's' && FIRMWARE_COPY[7] == 'f'
           && "config/boards/"[7] == 'b';
    assert BOARD_COPY[7] == 'b';
  }

  /** What a file of the bundle may be named after, given the artifact it comes from. */
  ghost predicate NamedAfter(d: Derived, m: ArtifactManifest) {
    || (d.base == FIRMWARE_COPY && m.artifactType == Firmware && d.part != Payload)
    || (d.base == BOARD_COPY && m.artifactType == Board)
    || (d.base == m.destination && m.artifactType != Firmware)
  }

  ghost predicate Apart(d: Derived, other: Derived) {
    d.artifact != other.artifact || d.base != other.base || d.part != other.part
  }

  lemma DerivedFromArtifact(n: nat, m: ArtifactManifest)
    requires ValidShape(m)
    ensures forall d :: d in DerivedFrom(n, m) ==> d.artifact == n && NamedAfter(d, m) && ProperBase(d.base)
    ensures forall k, l :: 0 <= k < l < |DerivedFrom(n, m)| ==> Apart(DerivedFrom(n, m)[k], DerivedFrom(n, m)[l])
  {
    hide ValidIdentifier, ValidVersion, SupportedArch, StrictlySorted, ValidDigest, ValidUrl, ExpectedDestination;
    if m.artifactType != Firmware {
      CopiesAreNoDestinations(m.artifactType, m.id);
      assert ProperBase(m.destination);
    }
  }

  lemma {:induction false} DerivedOwners(selected: seq<ArtifactManifest>)
    requires forall i :: 0 <= i < |selected| ==> ValidShape(selected[i])
    ensures forall d :: d in AllDerived(selected) ==>
              d.artifact < |selected| && NamedAfter(d, selected[d.artifact]) && ProperBase(d.base)
    ensures forall k, l :: 0 <= k < l < |AllDerived(selected)| ==>
              Apart(AllDerived(selected)[k], AllDerived(selected)[l])
  {
    hide ValidShape, DerivedFrom, ProperBase;
    if selected != [] {
      var n := |selected| - 1;
      DerivedOwners(selected[..n]);
      DerivedFromArtifact(n, selected[n]);
      var earlier, last := AllDerived(selected[..n]), DerivedFrom(n, selected[n]);
      var all: seq<Derived> := earlier + last;
      assert AllDerived(selected) == all;
      forall k, l | 0 <= k < l < |all|
        ensures Apart(all[k], all[l])
      {
        if k < |earlier| <= l {
          assert earlier[k] in earlier && last[l - |earlier|] in last;
        } else if k >= |earlier| {
          assert last[k - |earlier|] == all[k] && last[l - |earlier|] == all[l];
        }
      }
      forall d | d in all
        ensures d.artifact < |selected| && NamedAfter(d, selected[d.artifact]) && ProperBase(d.base)
      {
        assert d in earlier || d in last;
      }
    }
  }

  lemma {:induction false} OnlyOne(selected: seq<ArtifactManifest>, artifactType: ArtifactType, i: nat, j: nat)
    requires i < j < |selected|
    requires selected[i].artifactType == selected[j].artifactType == artifactType
    ensures CountOf(selected, artifactType) > 1
  {
    var n := |selected| - 1;
    if j < n {
      OnlyOne(selected[..n], artifactType, i, j);
    } else {
      AtLeastOne(selected[..n], artifactType, i);
    }
  }

  lemma {:induction false} AtLeastOne(selected: seq<ArtifactManifest>, artifactType: ArtifactType, i: nat)
    requires i < |selected| && selected[i].artifactType == artifactType
    ensures CountOf(selected, artifactType) > 0
  {
    var n := |selected| - 1;
    if i < n {
      AtLeastOne(selected[..n], artifactType, i);
    }
  }

  lemma ArtifactsNamedApart(selected: seq<ArtifactManifest>, d: Derived, other: Derived)
    requires forall i :: 0 <= i < |selected| ==> ValidShape(selected[i])
    requires DistinctDestinations(selected) && CountOf(selected, Firmware) == 1 && CountOf(selected, Board) == 1
    requires d.artifact < |selected| && other.artifact < |selected| && d.artifact != other.artifact
    requires NamedAfter(d, selected[d.artifact]) && NamedAfter(other, selected[other.artifact])
    ensures d.base != other.base
  {
    hide ValidIdentifier, ValidVersion, SupportedArch, StrictlySorted, ValidDigest, ValidUrl, ExpectedDestination,
      CountOf;
    var i, j := d.artifact, other.artifact;
    var m, n := selected[i], selected[j];
    if m.artifactType != Firmware { CopiesAreNoDestinations(m.artifactType, m.id); }
    if n.artifactType != Firmware { CopiesAreNoDestinations(n.artifactType, n.id); }
    if m.artifactType == n.artifactType && (m.artifactType == Firmware || m.artifactType == Board) {
      OnlyOne(selected, m.artifactType, if i < j then i else j, if i < j then j else i);
    }
  }

  /** Every file of an assembled bundle has a valid path outside the reserved
      directories, and no two files of it have the same path: `install` never
      meets a duplicate destination in a bundle that Recovery assembled. */
  lemma BundlePathsNeverCollide(selected: seq<ArtifactManifest>)
    requires forall i :: 0 <= i < |selected| ==> ValidShape(selected[i])
    requires DistinctDestinations(selected) && CountOf(selected, Firmware) == 1 && CountOf(selected, Board) == 1
    ensures var bundle := FilesFrom(AllDerived(selected));
            && bundle != []
            && DistinctFiles(bundle)
            && forall i :: 0 <= i < |bundle| ==> AcceptableFile(bundle[i])
  {
    hide ValidShape, DerivedFrom, CountOf, Key, AcceptableFile, ProperBase, WellPlaced;
    var derived := AllDerived(selected);
    var bundle := FilesFrom(derived);
    DerivedOwners(selected);
    forall k, l | 0 <= k < l < |bundle|
      ensures Key(bundle[k].path) != Key(bundle[l].path)
    {
      var d, other := derived[k], derived[l];
      assert d in derived && other in derived;
      if Key(d.Path()) == Key(other.Path()) {
        DerivedIsPlaced(d);
        DerivedIsPlaced(other);
        PlacedKeysDiffer(d.Path(), other.Path());
        PathTellsPart(d, other);
        if d.artifact != other.artifact {
          ArtifactsNamedApart(selected, d, other);
        }
        assert false;
      }
    }
    forall k | 0 <= k < |bundle|
      ensures AcceptableFile(bundle[k])
    {
      assert derived[k] in derived;
      DerivedIsPlaced(derived[k]);
      PlacedIsAcceptable(derived[k]);
    }
    SomethingDerived(selected);
  }

  lemma PlacedKeysDiffer(text: string, other: string)
    requires WellPlaced(text) && WellPlaced(other) && Key(text) == Key(other)
    ensures text == other
  {
    ProperKeysDiffer(text, other);
  }

  lemma PlacedIsAcceptable(d: Derived)
    requires WellPlaced(d.Path())
    ensures AcceptableFile(d.File())
  {
    hide Decimal.Print, Split, Key;
    ProperKey(d.Path());
    assert |TRANSACTION_DIR[0]| == 27 && |DOWNLOAD_DIR[0]| == 24;
    assert DownloadPath(d.artifact, d.part)[0] == DOWNLOAD_DIR[0];
  }

  lemma SomethingDerived(selected: seq<ArtifactManifest>)
    requires CountOf(selected, Firmware) == 1
    ensures AllDerived(selected) != []
  {
  }

  /** The security version of the firmware among the selected artifacts. */
  function FirmwareVersion(selected: seq<ArtifactManifest>): Option<nat> {
    if selected == [] then None
    else if selected[0].artifactType == Firmware then Some(selected[0].securityVersion)
    else FirmwareVersion(selected[1..])
  }

  /** All destinations hold the parts they were derived for, everything else is as before. */
  ghost predicate HasParts(files: Files, before: Files, selected: seq<ArtifactManifest>, catalog: Catalog) {
    && (forall d :: d in AllDerived(selected) ==>
          d.artifact < |selected| && HoldsAt(files, Key(d.Path()), DataOf(selected, catalog, d.artifact, d.part)))
    && (forall key :: !Reserved(key) && !(exists d :: d in AllDerived(selected) && Key(d.Path()) == key) ==>
          SameAt(files, before, key))
  }

  /** What a bundle needs in order to be installed. */
  ghost predicate Deliverable(selected: seq<ArtifactManifest>, catalog: Catalog, files: Files, floor: Option<u32>) {
    && Assemblable(selected, catalog) && CountOf(selected, Board) == 1
    && FirmwareVersion(selected).Some? && AntiRollback.FloorOf(floor) < FirmwareVersion(selected).value
    && !TransactionExists(files)
  }

  ghost predicate ValidSelection(selected: seq<ArtifactManifest>) {
    forall i :: 0 <= i < |selected| ==> ValidShape(selected[i]) && selected[i].securityVersion < 0x1_0000_0000
  }

  lemma AllAreDownloaded(files: Files, selected: seq<ArtifactManifest>, catalog: Catalog)
    requires ValidSelection(selected) && forall n :: 0 <= n < |selected| ==> Downloaded(files, selected, catalog, n)
    ensures forall d :: d in AllDerived(selected) ==>
              && d.artifact < |selected|
              && HoldsAt(files, DownloadPath(d.artifact, d.part), DataOf(selected, catalog, d.artifact, d.part))
    ensures SourcesPresent(files, FilesFrom(AllDerived(selected)))
  {
    hide ValidShape, DownloadPath, FirmwarePath, AllDerived, FilesFrom, Downloaded, HoldsAt, DataOf, ProperBase,
      NamedAfter;
    DerivedOwners(selected);
    var derived := AllDerived(selected);
    forall d | d in derived
      ensures HoldsAt(files, DownloadPath(d.artifact, d.part), DataOf(selected, catalog, d.artifact, d.part))
    {
      PartIsDownloaded(files, selected, catalog, d);
    }
    forall k | 0 <= k < |derived|
      ensures ContentsIn(files, FilesFrom(derived)[k].contents).Some?
    {
      SourceIsThere(files, selected, catalog, derived[k]);
    }
  }

  lemma PartIsDownloaded(files: Files, selected: seq<ArtifactManifest>, catalog: Catalog, d: Derived)
    requires d.artifact < |selected| && NamedAfter(d, selected[d.artifact])
    requires Downloaded(files, selected, catalog, d.artifact)
    ensures HoldsAt(files, DownloadPath(d.artifact, d.part), DataOf(selected, catalog, d.artifact, d.part))
  {
    hide DownloadPath, FirmwarePath, Canonical;
  }

  lemma SourceIsThere(files: Files, selected: seq<ArtifactManifest>, catalog: Catalog, d: Derived)
    requires d.artifact < |selected|
    requires HoldsAt(files, DownloadPath(d.artifact, d.part), DataOf(selected, catalog, d.artifact, d.part))
    ensures ContentsIn(files, d.File().contents) == Some(DataOf(selected, catalog, d.artifact, d.part))
  {
    hide DownloadPath, DataOf;
  }

  lemma InstalledHasParts(files: Files, before: Files, selected: seq<ArtifactManifest>, catalog: Catalog)
    requires ValidSelection(selected) && forall n :: 0 <= n < |selected| ==> Downloaded(before, selected, catalog, n)
    requires Installed(files, ChangeOf(before, FilesFrom(AllDerived(selected))))
    ensures HasParts(files, before, selected, catalog)
  {
    hide ValidShape, Downloaded, AllDerived, FilesFrom, DownloadPath, Key, HoldsAt, DataOf, Installed, ContentsIn,
      ChangeOf, NewGeneration, SourcesPresent, ItemOf;
    AllAreDownloaded(before, selected, catalog);
    var derived := AllDerived(selected);
    InstalledIsNew(files, ChangeOf(before, FilesFrom(derived)));
    forall d | d in derived
      ensures HoldsAt(files, Key(d.Path()), DataOf(selected, catalog, d.artifact, d.part))
    {
      SourceIsThere(before, selected, catalog, d);
      DerivedIsHeld(files, before, derived, d, DataOf(selected, catalog, d.artifact, d.part));
    }
    OthersAreKept(files, before, derived);
  }

  lemma DerivedIsHeld(files: Files, before: Files, derived: seq<Derived>, d: Derived, data: Bytes)
    requires NewGeneration(files, ChangeOf(before, FilesFrom(derived)))
    requires d in derived && ContentsIn(before, d.File().contents) == Some(data)
    ensures HoldsAt(files, Key(d.Path()), data)
  {
    hide Key, ContentsIn;
    var k :| 0 <= k < |derived| && derived[k] == d;
    ItemIsHeld(files, ChangeOf(before, FilesFrom(derived)), k, data);
  }

  lemma OthersAreKept(files: Files, before: Files, derived: seq<Derived>)
    requires NewGeneration(files, ChangeOf(before, FilesFrom(derived)))
    ensures forall key :: !Reserved(key) && !(exists d :: d in derived && Key(d.Path()) == key) ==>
              SameAt(files, before, key)
  {
    hide Key, ContentsIn, FilesFrom, IsDestination;
    forall key | !Reserved(key) && !(exists d :: d in derived && Key(d.Path()) == key)
      ensures SameAt(files, before, key)
    {
      DestinationIsDerived(before, derived, key);
    }
  }

  lemma DestinationIsDerived(before: Files, derived: seq<Derived>, key: Path)
    ensures IsDestination(ChangeOf(before, FilesFrom(derived)), key) <==>
            exists d :: d in derived && Key(d.Path()) == key
  {
    hide Key, ContentsIn;
    var c := ChangeOf(before, FilesFrom(derived));
    assert forall k :: 0 <= k < |derived| ==> derived[k] in derived && c.items[k].key == Key(derived[k].Path());
    if d :| d in derived && Key(d.Path()) == key {
      var k :| 0 <= k < |derived| && derived[k] == d;
      assert c.items[k].key == key;
    }
  }

  lemma ItemIsHeld(files: Files, c: Change, k: nat, data: Bytes)
    requires NewGeneration(files, c) && k < |c.items| && c.items[k].incoming == data
    ensures HoldsAt(files, c.items[k].key, data)
  {
  }

  /** Install what was downloaded. */
  method InstallDownloaded(device: Device, selected: seq<ArtifactManifest>, catalog: Catalog, bundle: seq<BundleFile>,
                           firmware: nat, candidate: u32)
    returns (r: InstallResult)
    requires ValidSelection(selected) && DistinctDestinations(selected)
    requires CountOf(selected, Firmware) == 1 && CountOf(selected, Board) == 1
    requires bundle == FilesFrom(AllDerived(selected))
    requires forall n :: 0 <= n < |selected| ==> Downloaded(device.files, selected, catalog, n)
    modifies device
    ensures r.Done? ==>
              && HasParts(device.files, old(device.files), selected, catalog)
              && device.firmware == catalog.payload(firmware).data
              && AntiRollback.FloorOf(old(device.floor)) < candidate == AntiRollback.FloorOf(device.floor)
    ensures r.Failed? && !TransactionExists(old(device.files)) ==>
              SameUserFiles(old(device.files), device.files) && !TransactionExists(device.files)
    ensures TransactionExists(old(device.files)) ==> r.Failed? && device.files == old(device.files)
    ensures r.RollbackFailed? ==> Recoverable(device.files, ChangeOf(old(device.files), bundle))
    ensures !r.Done? && !TransactionExists(old(device.files)) && AntiRollback.FloorOf(old(device.floor)) < candidate
            ==> old(device.halted)
                || !device.QuietBetween(old(device.clock), device.clock)
                || !device.StoresBetween(old(device.clock), device.clock)
    ensures old(device.clock) <= device.clock
  {
    hide AllDerived, FilesFrom, CountOf, Installed, DistinctFiles, AcceptableFile, Recoverable, SelectorCalledLast,
      HasParts, Downloaded, CutOffWithMarker, ValidShape;
    BundlePathsNeverCollide(selected);
    AllAreDownloaded(device.files, selected, catalog);
    ghost var before := device.files;
    ghost var unwinding;
    r, unwinding := Install(device, bundle, catalog.payload(firmware).data, candidate);
    if r.Done? {
      InstalledHasParts(device.files, before, selected, catalog);
    }
    if r.Failed? && !TransactionExists(before) {
      OldIsSame(device.files, ChangeOf(before, bundle));
    }
  }

  lemma OldIsSame(files: Files, c: Change)
    requires OldGeneration(files, c)
    ensures SameUserFiles(c.before, files)
  {
    forall key | !Reserved(key)
      ensures SameAt(c.before, files, key)
    {
      assert SameAt(files, c.before, key);
    }
  }

  /** A rollback failed: recovery can still bring the old files back, or the new ones. */
  ghost predicate CanRecover(files: Files, before: Files, bundle: seq<BundleFile>) {
    exists start :: SameUserFiles(before, start) && WellFormed(ChangeOf(start, bundle))
        && Recoverable(files, ChangeOf(start, bundle))
  }

  /** What became of the files by removing downloads from `files`. */
  lemma DroppedDownloads(files: Files, after: Files, before: Files, selected: seq<ArtifactManifest>, catalog: Catalog)
    requires SameButDownloads(files, after)
    requires ValidSelection(selected)
    ensures SameUserFiles(before, files) ==> SameUserFiles(before, after)
    ensures TransactionExists(files) <==> TransactionExists(after)
    ensures HasParts(files, before, selected, catalog) ==> HasParts(after, before, selected, catalog)
    ensures CanRecover(files, before, FilesFrom(AllDerived(selected))) ==>
              CanRecover(after, before, FilesFrom(AllDerived(selected)))
  {
    hide ValidShape, WellFormed, Recoverable, AllDerived, FilesFrom, ChangeOf, HasParts, SameUserFiles,
      SameButDownloads;
    var bundle := FilesFrom(AllDerived(selected));
    DownloadsKeepUserFiles(files, after);
    UserFilesChain(before, files, after);
    if CanRecover(files, before, bundle) {
      var start :| SameUserFiles(before, start) && WellFormed(ChangeOf(start, bundle))
          && Recoverable(files, ChangeOf(start, bundle));
      assert Reverting(files, ChangeOf(start, bundle), false);
      DownloadsKeepState(files, after, ChangeOf(start, bundle), false);
    }
    if HasParts(files, before, selected, catalog) {
      PartsStay(files, after, before, selected, catalog);
    }
  }

  lemma PartsStay(files: Files, after: Files, before: Files, selected: seq<ArtifactManifest>, catalog: Catalog)
    requires SameUserFiles(files, after) && HasParts(files, before, selected, catalog) && ValidSelection(selected)
    ensures HasParts(after, before, selected, catalog)
  {
    hide ValidShape, AllDerived, Key, WellPlaced, ProperBase, ValidRelativePath;
    DerivedOwners(selected);
    forall d | d in AllDerived(selected)
      ensures HoldsAt(after, Key(d.Path()), DataOf(selected, catalog, d.artifact, d.part))
    {
      DerivedIsPlaced(d);
      PlacedIsAcceptable(d);
      assert SameAt(files, after, Key(d.Path()));
    }
    forall key | !Reserved(key) && !(exists d :: d in AllDerived(selected) && Key(d.Path()) == key)
      ensures SameAt(after, before, key)
    {
      assert SameAt(files, after, key) && SameAt(files, before, key);
    }
  }

  /** What becomes of a selection. Done: the payloads are the signed ones, every
      destination holds its part, the firmware is the one selected and the floor its
      version. Failed: the files as before. A failed rollback: a state from which
      recovery brings one of the generations. An error: nothing was installed. */
  ghost predicate Outcome(r: Result<InstallResult>, before: View, after: View, selected: seq<ArtifactManifest>,
                          catalog: Catalog, candidate: u32) {
    match r
    case Ok(Done) =>
      && Assemblable(selected, catalog)
      && HasParts(after.files, before.files, selected, catalog)
      && AntiRollback.FloorOf(before.floor) < candidate == AntiRollback.FloorOf(after.floor)
      && IsSelectedFirmware(after.firmware, selected, catalog)
    case Ok(Failed(_)) =>
      !TransactionExists(before.files) ==>
        SameUserFiles(before.files, after.files) && !TransactionExists(after.files)
    case Ok(RollbackFailed(_, _)) =>
      CanRecover(after.files, before.files, FilesFrom(AllDerived(selected)))
    case Err(_) =>
      && SameUserFiles(before.files, after.files)
      && (TransactionExists(before.files) <==> TransactionExists(after.files))
      && after == before.(files := after.files)
  }

  ghost predicate IsSelectedFirmware(firmware: Bytes, selected: seq<ArtifactManifest>, catalog: Catalog) {
    exists n :: 0 <= n < |selected| && selected[n].artifactType == Firmware && firmware == catalog.payload(n).data
  }

  /** Only the downloads differ between `left` and `after`. */
  lemma OutcomeWithoutDownloads(r: Result<InstallResult>, before: View, left: View, after: View,
                                selected: seq<ArtifactManifest>, catalog: Catalog, candidate: u32)
    requires Outcome(r, before, left, selected, catalog, candidate) && ValidSelection(selected)
    requires SameButDownloads(left.files, after.files) && after == left.(files := after.files)
    ensures Outcome(r, before, after, selected, catalog, candidate)
  {
    hide HasParts, SameUserFiles, CanRecover, SameButDownloads, AllDerived, FilesFrom, Assemblable, IsSelectedFirmware,
      ValidSelection;
    DroppedDownloads(left.files, after.files, before.files, selected, catalog);
  }

  /** Only the downloads differ between `before` and `empty`. */
  lemma OutcomeSince(r: Result<InstallResult>, before: View, empty: View, after: View,
                     selected: seq<ArtifactManifest>, catalog: Catalog, candidate: u32)
    requires Outcome(r, empty, after, selected, catalog, candidate)
    requires SameButDownloads(before.files, empty.files) && empty == before.(files := empty.files)
    ensures Outcome(r, before, after, selected, catalog, candidate)
  {
    hide HasParts, SameUserFiles, CanRecover, SameButDownloads, AllDerived, FilesFrom, Assemblable, IsSelectedFirmware;
    DownloadsKeepUserFiles(before.files, empty.files);
    SinceOpened(after.files, empty.files, before.files, selected, catalog);
  }

  /** Fill the new download directory, and install what is in it. */
  method DownloadAndInstall(device: Device, selected: seq<ArtifactManifest>, catalog: Catalog, candidate: u32)
    returns (r: Result<InstallResult>)
    requires ValidSelection(selected)
    requires CountOf(selected, Firmware) == 1 && CountOf(selected, Board) == 1
    modifies device
    ensures r.Err? ==>
              device.Boot() == old(device.Boot()) && device.flashes == old(device.flashes)
              && SameButDownloads(old(device.files), device.files)
    ensures Outcome(r, old(device.Seen()), device.Seen(), selected, catalog, candidate)
    ensures Assemblable(selected, catalog) && r != Ok(Done) && !TransactionExists(old(device.files))
            && AntiRollback.FloorOf(old(device.floor)) < candidate
            ==> old(device.halted)
                || !device.QuietBetween(old(device.clock), device.clock)
                || !device.StoresBetween(old(device.clock), device.clock)
    ensures old(device.clock) <= device.clock
  {
    hide ValidShape, AllDerived, FilesFrom, CountOf, HasParts, Downloaded, Recoverable, WellFormed, ValidCatalogId,
      SameUserFiles, DistinctDestinations, Assemblable, SameButDownloads, ValidSelection;
    ghost var before := device.Seen();
    var bundle := Assemble(device, selected, catalog);
    ghost var fetched := device.Seen();
    DownloadsKeepUserFiles(before.files, fetched.files);
    if bundle.Err? {
      return Err(bundle.error);
    }
    AssembledIsDistinct(selected, catalog);
    var result := InstallDownloaded(device, selected, catalog, bundle.value.0, bundle.value.1, candidate);
    SameFiles(fetched.files);
    if result.RollbackFailed? {
      SelectionIsWellFormed(fetched.files, selected);
    }
    r := Ok(result);
    OutcomeSince(r, before, fetched, device.Seen(), selected, catalog, candidate);
  }

  lemma AssembledIsDistinct(selected: seq<ArtifactManifest>, catalog: Catalog)
    requires Assemblable(selected, catalog)
    ensures DistinctDestinations(selected)
  {
  }

  lemma SelectionIsWellFormed(files: Files, selected: seq<ArtifactManifest>)
    requires ValidSelection(selected) && DistinctDestinations(selected)
    requires CountOf(selected, Firmware) == 1 && CountOf(selected, Board) == 1
    ensures WellFormed(ChangeOf(files, FilesFrom(AllDerived(selected))))
  {
    hide ValidShape, AllDerived, FilesFrom, CountOf, AcceptableFile;
    BundlePathsNeverCollide(selected);
    ChangeIsWellFormed(files, FilesFrom(AllDerived(selected)));
  }

  lemma PartsSince(files: Files, fetched: Files, before: Files, selected: seq<ArtifactManifest>, catalog: Catalog)
    requires SameUserFiles(before, fetched) && HasParts(files, fetched, selected, catalog)
    ensures HasParts(files, before, selected, catalog)
  {
    hide AllDerived, Key;
    forall key | !Reserved(key) && !(exists d :: d in AllDerived(selected) && Key(d.Path()) == key)
      ensures SameAt(files, before, key)
    {
      assert SameAt(before, fetched, key) && SameAt(files, fetched, key);
    }
  }

  /** The parts of artifact `n` are in their places. */
  ghost predicate ArtifactInPlace(files: Files, m: ArtifactManifest, catalog: Catalog, n: nat) {
    && (m.artifactType != Firmware ==>
          && HoldsAt(files, Key(m.destination), catalog.payload(n).data)
          && HoldsAt(files, Key(m.destination + ".manifest"), Canonical(m))
          && HoldsAt(files, Key(m.destination + ".manifest.sig"), catalog.signature(n)))
    && (m.artifactType == Board ==>
          && HoldsAt(files, Key("config/board.json"), catalog.payload(n).data)
          && HoldsAt(files, Key("config/board.json.manifest"), Canonical(m))
          && HoldsAt(files, Key("config/board.json.manifest.sig"), catalog.signature(n)))
    && (m.artifactType == Firmware ==>
          && HoldsAt(files, Key("config/firmware.manifest"), Canonical(m))
          && HoldsAt(files, Key("config/firmware.manifest.sig"), catalog.signature(n)))
  }

  ghost predicate IsPartPlace(selected: seq<ArtifactManifest>, key: Path) {
    exists n, text, part :: 0 <= n < |selected| && NamesPart(selected[n], text, part) && Key(text) == key
  }

  /** All artifacts are in their places, and every other file is as before. */
  ghost predicate AllInPlace(files: Files, before: Files, selected: seq<ArtifactManifest>, catalog: Catalog) {
    && (forall n :: 0 <= n < |selected| ==> ArtifactInPlace(files, selected[n], catalog, n))
    && (forall key :: !Reserved(key) && !IsPartPlace(selected, key) ==> SameAt(files, before, key))
  }

  lemma PartIsHeld(files: Files, before: Files, selected: seq<ArtifactManifest>, catalog: Catalog, n: nat, text: string,
                   part: Part)
    requires HasParts(files, before, selected, catalog) && n < |selected| && NamesPart(selected[n], text, part)
    ensures HoldsAt(files, Key(text), DataOf(selected, catalog, n, part))
  {
    hide Key, NamesPart, DerivedFrom, AllDerived, HoldsAt, DataOf;
    DerivedMeaning(n, selected[n], text, part);
    var d :| d in DerivedFrom(n, selected[n]) && d.Path() == text && d.part == part;
    AllDerivedMeaning(selected, d);
  }

  lemma PartsAreInPlace(files: Files, before: Files, selected: seq<ArtifactManifest>, catalog: Catalog)
    requires HasParts(files, before, selected, catalog)
    ensures AllInPlace(files, before, selected, catalog)
  {
    hide HasParts, ArtifactInPlace, IsPartPlace;
    forall n | 0 <= n < |selected|
      ensures ArtifactInPlace(files, selected[n], catalog, n)
    {
      ArtifactIsInPlace(files, before, selected, catalog, n);
    }
    OthersAreUntouched(files, before, selected, catalog);
  }

  lemma ArtifactIsInPlace(files: Files, before: Files, selected: seq<ArtifactManifest>, catalog: Catalog, n: nat)
    requires HasParts(files, before, selected, catalog) && n < |selected|
    ensures ArtifactInPlace(files, selected[n], catalog, n)
  {
    hide Key, HasParts, HoldsAt, Canonical;
    var m := selected[n];
    if m.artifactType != Firmware {
      PartIsHeld(files, before, selected, catalog, n, m.destination, Payload);
      PartIsHeld(files, before, selected, catalog, n, m.destination + ".manifest", SignedManifest);
      PartIsHeld(files, before, selected, catalog, n, m.destination + ".manifest.sig", Signature);
    }
    if m.artifactType == Board {
      PartIsHeld(files, before, selected, catalog, n, "config/board.json", Payload);
      PartIsHeld(files, before, selected, catalog, n, "config/board.json.manifest", SignedManifest);
      PartIsHeld(files, before, selected, catalog, n, "config/board.json.manifest.sig", Signature);
    }
    if m.artifactType == Firmware {
      PartIsHeld(files, before, selected, catalog, n, "config/firmware.manifest", SignedManifest);
      PartIsHeld(files, before, selected, catalog, n, "config/firmware.manifest.sig", Signature);
    }
  }

  lemma DerivedIsPartPlace(selected: seq<ArtifactManifest>, d: Derived)
    requires d in AllDerived(selected)
    ensures IsPartPlace(selected, Key(d.Path()))
  {
    hide Key, AllDerived, DerivedFrom, NamesPart;
    AllDerivedMeaning(selected, d);
    DerivedMeaning(d.artifact, selected[d.artifact], d.Path(), d.part);
  }

  lemma OthersAreUntouched(files: Files, before: Files, selected: seq<ArtifactManifest>, catalog: Catalog)
    requires HasParts(files, before, selected, catalog)
    ensures forall key :: !Reserved(key) && !IsPartPlace(selected, key) ==> SameAt(files, before, key)
  {
    hide Key, AllDerived, IsPartPlace;
    forall d | d in AllDerived(selected)
      ensures IsPartPlace(selected, Key(d.Path()))
    {
      DerivedIsPartPlace(selected, d);
    }
  }

  /** Counting one means that there is one, and only one. */
  lemma {:induction false} CountsOne(selected: seq<ArtifactManifest>, artifactType: ArtifactType)
    requires CountOf(selected, artifactType) == 1
    ensures exists n ::
              0 <= n < |selected| && selected[n].artifactType == artifactType && OnlyAt(selected, artifactType, n)
    decreases |selected|
  {
    var n := |selected| - 1;
    if selected[n].artifactType == artifactType {
      CountsNone(selected[..n], artifactType);
      assert forall k :: 0 <= k < n ==> selected[..n][k] == selected[k];
      assert OnlyAt(selected, artifactType, n);
    } else {
      CountsOne(selected[..n], artifactType);
      var k :| 0 <= k < n && selected[..n][k].artifactType == artifactType && OnlyAt(selected[..n], artifactType, k);
      assert forall i :: 0 <= i < n ==> selected[..n][i] == selected[i];
      assert OnlyAt(selected, artifactType, k);
    }
  }

  ghost predicate OnlyAt(selected: seq<ArtifactManifest>, artifactType: ArtifactType, n: nat) {
    forall k :: 0 <= k < |selected| && selected[k].artifactType == artifactType ==> k == n
  }

  lemma {:induction false} CountsNone(selected: seq<ArtifactManifest>, artifactType: ArtifactType)
    ensures CountOf(selected, artifactType) == 0 <==> forall k :: 0 <= k < |selected| ==>
              selected[k].artifactType != artifactType
    decreases |selected|
  {
    if selected != [] {
      var n := |selected| - 1;
      CountsNone(selected[..n], artifactType);
      assert forall k :: 0 <= k < n ==> selected[..n][k] == selected[k];
    }
  }

  /** Artifact `n` is the one firmware, of the version `candidate`, and in the slot. */
  ghost predicate FlashedFrom(firmware: Bytes, selected: seq<ArtifactManifest>, catalog: Catalog, candidate: u32,
                              n: nat)
    requires n < |selected|
  {
    && selected[n].artifactType == Firmware && OnlyAt(selected, Firmware, n)
    && selected[n].securityVersion == candidate && firmware == catalog.payload(n).data
  }

  lemma TheFirmware(firmware: Bytes, selected: seq<ArtifactManifest>, catalog: Catalog, candidate: u32)
    requires CountOf(selected, Firmware) == 1 && IsSelectedFirmware(firmware, selected, catalog)
    requires FirmwareVersion(selected) == Some(candidate)
    ensures exists n :: 0 <= n < |selected| && FlashedFrom(firmware, selected, catalog, candidate, n)
  {
    hide CountOf, FirmwareVersion;
    CountsOne(selected, Firmware);
    FirmwareVersionIsOne(selected);
    var n :| 0 <= n < |selected| && selected[n].artifactType == Firmware && OnlyAt(selected, Firmware, n);
    assert FlashedFrom(firmware, selected, catalog, candidate, n);
  }

  /** The part of `recovery_download_board_bundle_for` that follows the selection:
      count, check the version, download, install, and drop the downloads. */
  method InstallSelected(device: Device, selected: seq<ArtifactManifest>, catalog: Catalog)
    returns (r: Result<InstallResult>, ghost candidate: u32)
    requires ValidSelection(selected)
    modifies device
    ensures r.Ok? ==> FirmwareVersion(selected) == Some(candidate)
    ensures Outcome(r, old(device.Seen()), device.Seen(), selected, catalog, candidate)
    // done: every part of every artifact is in its place, and the version is that of the one firmware flashed
    ensures r == Ok(Done) ==> AllInPlace(device.files, old(device.files), selected, catalog)
    ensures r == Ok(Done) ==>
              exists n :: 0 <= n < |selected| && FlashedFrom(device.firmware, selected, catalog, candidate, n)
    // an error: nothing but the download directory is touched
    ensures r.Err? ==>
              device.Boot() == old(device.Boot()) && device.flashes == old(device.flashes)
              && SameButDownloads(old(device.files), device.files)
    // nothing but a fault keeps a complete bundle with a newer version from being installed
    ensures Deliverable(selected, catalog, old(device.files), old(device.floor)) && r != Ok(Done) ==>
              || old(device.halted)
              || !device.QuietBetween(old(device.clock), device.clock)
              || !device.StoresBetween(old(device.clock), device.clock)
  {
    hide ValidShape, AllDerived, FilesFrom, CountOf, HasParts, Downloaded, Recoverable, WellFormed, ValidCatalogId,
      SameUserFiles, DistinctDestinations, Assemblable, CanRecover, SameButDownloads, IsSelectedFirmware;
    candidate := 0;
    ghost var before := device.Seen();
    SameFiles(before.files);
    SameDownloads(before.files);
    if CountOf(selected, Firmware) != 1 || CountOf(selected, Board) != 1 {
      AssemblableHasOneFirmware(selected, catalog);
      return Err(InvalidData("Signed bundle must contain exactly one firmware and one board profile")), candidate;
    }
    FirmwareIsThere(selected);
    FirmwareVersionIsOne(selected);
    var version: u32 := FirmwareVersion(selected).value;
    candidate := version;
    var newer := AntiRollback.RequireNewer(device, version);
    if newer.Err? {
      return Err(newer.error), candidate;
    }
    r := FetchInstallDrop(device, selected, catalog, version);
    ghost var after := device.Seen();
    if r == Ok(Done) {
      PartsAreInPlace(after.files, before.files, selected, catalog);
      TheFirmware(after.firmware, selected, catalog, version);
    }
  }

  /** The rest of it, once the version is known to be newer. */
  method FetchInstallDrop(device: Device, selected: seq<ArtifactManifest>, catalog: Catalog, candidate: u32)
    returns (r: Result<InstallResult>)
    requires ValidSelection(selected)
    requires CountOf(selected, Firmware) == 1 && CountOf(selected, Board) == 1
    modifies device
    ensures r.Err? ==>
              device.Boot() == old(device.Boot()) && device.flashes == old(device.flashes)
              && SameButDownloads(old(device.files), device.files)
    ensures Outcome(r, old(device.Seen()), device.Seen(), selected, catalog, candidate)
    ensures Assemblable(selected, catalog) && r != Ok(Done) && !TransactionExists(old(device.files))
            && AntiRollback.FloorOf(old(device.floor)) < candidate
            ==> old(device.halted)
                || !device.QuietBetween(old(device.clock), device.clock)
                || !device.StoresBetween(old(device.clock), device.clock)
    ensures old(device.clock) <= device.clock
  {
    hide ValidSelection, CountOf, Assemblable, SameButDownloads, HasParts, CanRecover, IsSelectedFirmware,
      SameUserFiles, FilesFrom, AllDerived;
    ghost var before := device.Seen();
    var ok := OpenDownloads(device);
    ghost var empty := device.Seen();
    DownloadsKeepUserFiles(before.files, empty.files);
    if !ok {
      return Err(Io);
    }
    r := InstallAndDrop(device, selected, catalog, candidate);
    OutcomeSince(r, before, empty, device.Seen(), selected, catalog, candidate);
    if r.Err? {
      DownloadsChain(before.files, empty.files, device.files);
    }
  }

  /** The same with the removal of the download directory after it. */
  method InstallAndDrop(device: Device, selected: seq<ArtifactManifest>, catalog: Catalog, candidate: u32)
    returns (r: Result<InstallResult>)
    requires ValidSelection(selected)
    requires CountOf(selected, Firmware) == 1 && CountOf(selected, Board) == 1
    modifies device
    ensures r.Err? ==>
              device.Boot() == old(device.Boot()) && device.flashes == old(device.flashes)
              && SameButDownloads(old(device.files), device.files)
    ensures Outcome(r, old(device.Seen()), device.Seen(), selected, catalog, candidate)
    ensures Assemblable(selected, catalog) && r != Ok(Done) && !TransactionExists(old(device.files))
            && AntiRollback.FloorOf(old(device.floor)) < candidate
            ==> old(device.halted)
                || !device.QuietBetween(old(device.clock), device.clock)
                || !device.StoresBetween(old(device.clock), device.clock)
    ensures old(device.clock) <= device.clock
  {
    hide ValidSelection, CountOf, Assemblable, Outcome;
    ghost var before := device.Seen();
    r := DownloadAndInstall(device, selected, catalog, candidate);
    ghost var left := device.Seen();
    var _ := device.RemoveTree(DOWNLOAD_DIR);
    OutcomeWithoutDownloads(r, before, left, device.Seen(), selected, catalog, candidate);
    if r.Err? {
      DownloadsChain(before.files, left.files, device.files);
    }
  }

  lemma SameFiles(files: Files)
    ensures SameUserFiles(files, files)
  {
  }

  lemma AssemblableHasOneFirmware(selected: seq<ArtifactManifest>, catalog: Catalog)
    ensures Assemblable(selected, catalog) ==> CountOf(selected, Firmware) == 1
  {
  }

  /** What holds since the download directory was opened holds since before that. */
  lemma SinceOpened(files: Files, empty: Files, before: Files, selected: seq<ArtifactManifest>, catalog: Catalog)
    requires SameUserFiles(before, empty)
    ensures SameUserFiles(empty, files) ==> SameUserFiles(before, files)
    ensures HasParts(files, empty, selected, catalog) ==> HasParts(files, before, selected, catalog)
    ensures CanRecover(files, empty, FilesFrom(AllDerived(selected))) ==>
              CanRecover(files, before, FilesFrom(AllDerived(selected)))
  {
    hide AllDerived, FilesFrom, WellFormed, Recoverable, SameUserFiles, HasParts, ChangeOf;
    UserFilesChain(before, empty, files);
    if HasParts(files, empty, selected, catalog) {
      PartsSince(files, empty, before, selected, catalog);
    }
    var bundle := FilesFrom(AllDerived(selected));
    if CanRecover(files, empty, bundle) {
      var start :| SameUserFiles(empty, start) && WellFormed(ChangeOf(start, bundle))
          && Recoverable(files, ChangeOf(start, bundle));
      UserFilesChain(before, empty, start);
    }
  }

  lemma {:induction false} FirmwareIsThere(selected: seq<ArtifactManifest>)
    requires CountOf(selected, Firmware) > 0
    ensures FirmwareVersion(selected).Some?
    decreases |selected|
  {
    var n := |selected| - 1;
    if selected[n].artifactType == Firmware {
      VersionFound(selected, n);
    } else {
      FirmwareIsThere(selected[..n]);
      FirmwareVersionIsOne(selected[..n]);
      var i :| 0 <= i < n && selected[..n][i].artifactType == Firmware;
      VersionFound(selected, i);
    }
  }

  lemma {:induction false} VersionFound(selected: seq<ArtifactManifest>, i: nat)
    requires i < |selected| && selected[i].artifactType == Firmware
    ensures FirmwareVersion(selected).Some?
  {
    if i > 0 {
      VersionFound(selected[1..], i - 1);
    }
  }

  lemma FirmwareVersionIsOne(selected: seq<ArtifactManifest>)
    requires FirmwareVersion(selected).Some?
    ensures exists i :: 0 <= i < |selected| && selected[i].artifactType == Firmware
                        && selected[i].securityVersion == FirmwareVersion(selected).value
  {
    if selected[0].artifactType != Firmware {
      FirmwareVersionIsOne(selected[1..]);
      var i :| 0 <= i < |selected[1..]| && selected[1..][i].artifactType == Firmware
               && selected[1..][i].securityVersion == FirmwareVersion(selected).value;
      assert selected[i + 1].artifactType == Firmware
             && selected[i + 1].securityVersion == FirmwareVersion(selected).value;
    }
  }
}
