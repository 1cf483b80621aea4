/** The journal of a bundle transaction, as text. */
module Journal {
  import opened Text
  import opened Paths

  const JOURNAL_VERSION := "THISTLE_BUNDLE_V1"

  datatype Phase = Prepared | FilesActive | FirmwareWritten {
    function AsStr(): string {
      match this
      case Prepared => "prepared"
      case FilesActive => "files_active"
      case FirmwareWritten => "firmware_written"
    }
  }

  datatype Entry = Entry(hadOriginal: bool, path: string)

  function ParsePhase(value: string): Result<Phase> {
    if value == "prepared" then Ok(Prepared)
    else if value == "files_active" then Ok(FilesActive)
    else if value == "firmware_written" then Ok(FirmwareWritten)
    else Err(InvalidData("unknown bundle transaction phase"))
  }

  function EntryLine(entry: Entry): string {
    (if entry.hadOriginal then "1" else "0") + "\t" + entry.path
  }

  function EntryLines(entries: seq<Entry>): string {
    if entries == [] then "" else EntryLine(entries[0]) + "\n" + EntryLines(entries[1..])
  }

  /** What `write_journal` writes. */
  function JournalText(entries: seq<Entry>): string {
    JOURNAL_VERSION + "\n" + ("phase=" + Prepared.AsStr() + "\n" + EntryLines(entries))
  }

  /** `str::split_once`. */
  function SplitOnce(line: string, sep: char): Result<(string, string)> {
    if line == "" then Err(InvalidData("no separator"))
    else if line[0] == sep then Ok(("", line[1..]))
    else
      match SplitOnce(line[1..], sep)
      case Ok(parts) => Ok(([line[0]] + parts.0, parts.1))
      case Err(e) => Err(e)
  }

  function ParseFlag(existed: string): Result<bool> {
    if existed == "0" then Ok(false)
    else if existed == "1" then Ok(true)
    else Err(InvalidData("invalid original-file marker"))
  }

  /** The entries of `lines`, none naming a file in `seen` or one already named. */
  function ParseEntries(lines: seq<string>, seen: set<Path>): (r: Result<seq<Entry>>)
    ensures r.Ok? ==> Distinct(r.value)
    ensures r.Ok? ==> forall e :: e in r.value ==> ValidRelativePath(e.path) && Key(e.path) !in seen
  {
    if lines == [] then Ok([])
    else
      match SplitOnce(lines[0], '\t')
      case Err(_) => Err(InvalidData("malformed bundle transaction entry"))
      case Ok(parts) =>
        if !ValidRelativePath(parts.1) then Err(InvalidInput("bundle destination"))
        else if Key(parts.1) in seen then Err(InvalidData("duplicate path in bundle transaction journal"))
        else
          match ParseFlag(parts.0)
          case Err(e) => Err(e)
          case Ok(existed) =>
            match ParseEntries(lines[1..], seen + {Key(parts.1)})
            case Err(e) => Err(e)
            case Ok(entries) => Ok([Entry(existed, parts.1)] + entries)
  }

  /** No two entries name the same file. */
  ghost predicate Distinct(entries: seq<Entry>) {
    forall i, j :: 0 <= i < j < |entries| ==> Key(entries[i].path) != Key(entries[j].path)
  }

  /** The entries that a journal can hold and be read back from. */
  ghost predicate Journalable(entries: seq<Entry>) {
    && entries != []
    && Distinct(entries)
    && forall e :: e in entries ==> ValidRelativePath(e.path)
  }

  /** What `read_journal` makes of the text of a journal. */
  function ParseJournal(text: string): (r: Result<seq<Entry>>)
    ensures r.Ok? ==> Journalable(r.value)
  {
    var lines := Lines(text);
    if |lines| == 0 || lines[0] != JOURNAL_VERSION then Err(InvalidData("unsupported bundle transaction journal"))
    else if |lines| == 1 || !("phase=" <= lines[1]) then Err(InvalidData("bundle transaction journal has no phase"))
    else
      match ParsePhase(lines[1][6..])
      case Err(e) => Err(e)
      case Ok(phase) =>
        if phase != Prepared then Err(InvalidData("bundle journal must begin in prepared phase"))
        else
          match ParseEntries(lines[2..], {})
          case Err(e) => Err(e)
          case Ok(entries) =>
            if entries == [] then Err(InvalidData("empty bundle transaction journal")) else Ok(entries)
  }

  // ----- What is written is what is read back -----

  lemma EntryLineParses(entry: Entry)
    requires ValidRelativePath(entry.path)
    ensures SplitOnce(EntryLine(entry), '\t') == Ok((if entry.hadOriginal then "1" else "0", entry.path))
    ensures '\n' !in EntryLine(entry) && '\r' !in EntryLine(entry)
  {
    var line := EntryLine(entry);
    var flag := if entry.hadOriginal then "1" else "0";
    assert line[1..] == "\t" + entry.path;
    assert line[1..][1..] == entry.path;
    assert SplitOnce(line[1..], '\t') == Ok(("", entry.path));
    assert [line[0]] + "" == flag;
  }

  function LinesOf(entries: seq<Entry>): (lines: seq<string>)
    ensures |lines| == |entries|
    ensures forall i :: 0 <= i < |entries| ==> lines[i] == EntryLine(entries[i])
  {
    seq(|entries|, i requires 0 <= i < |entries| => EntryLine(entries[i]))
  }

  lemma {:induction false} EntryLinesSplit(entries: seq<Entry>)
    requires forall e :: e in entries ==> ValidRelativePath(e.path)
    ensures Lines(EntryLines(entries)) == LinesOf(entries)
  {
    if entries != [] {
      EntryLineParses(entries[0]);
      LinesHead("", EntryLine(entries[0]), EntryLines(entries[1..]));
      EntryLinesSplit(entries[1..]);
      assert "" + EntryLine(entries[0]) == EntryLine(entries[0]);
      assert [EntryLine(entries[0])] + LinesOf(entries[1..]) == LinesOf(entries);
    }
  }

  lemma {:induction false} EntriesParse(entries: seq<Entry>, seen: set<Path>)
    requires Distinct(entries)
    requires forall e :: e in entries ==> ValidRelativePath(e.path) && Key(e.path) !in seen
    ensures ParseEntries(LinesOf(entries), seen) == Ok(entries)
  {
    hide ValidRelativePath, Key;
    if entries != [] {
      var lines, first := LinesOf(entries), entries[0];
      EntryLineParses(first);
      assert entries[0] in entries;
      forall e | e in entries[1..]
        ensures ValidRelativePath(e.path) && Key(e.path) !in seen + {Key(first.path)}
      {
        assert e in entries;
        var i :| 0 <= i < |entries[1..]| && entries[1..][i] == e;
        assert entries[i + 1] == e;
      }
      EntriesParse(entries[1..], seen + {Key(first.path)});
      assert lines[1..] == LinesOf(entries[1..]);
      assert lines[0] == EntryLine(first);
      assert [first] + entries[1..] == entries;
    }
  }

  lemma HeaderLines(version: string, phase: string, entries: seq<Entry>)
    requires '\n' !in version && '\r' !in version && '\n' !in phase && '\r' !in phase
    requires forall e :: e in entries ==> ValidRelativePath(e.path)
    ensures Lines(version + "\n" + (phase + "\n" + EntryLines(entries))) == [version, phase] + LinesOf(entries)
  {
    LinesHead("", version, phase + "\n" + EntryLines(entries));
    LinesHead("", phase, EntryLines(entries));
    EntryLinesSplit(entries);
    assert "" + version == version && "" + phase == phase;
  }

  /** Reading a journal back gives the entries it was written with, in order and
      with their flags; the empty list is the one list that cannot be read back. */
  lemma JournalRoundTrip(entries: seq<Entry>)
    requires Distinct(entries) && forall e :: e in entries ==> ValidRelativePath(e.path)
    ensures ParseJournal(JournalText(entries)) ==
            if entries == [] then Err(InvalidData("empty bundle transaction journal")) else Ok(entries)
  {
    var phase := "phase=" + Prepared.AsStr();
    HeaderLines(JOURNAL_VERSION, phase, entries);
    EntriesParse(entries, {});
    assert phase[6..] == Prepared.AsStr();
    var lines := [JOURNAL_VERSION, phase] + LinesOf(entries);
    assert lines[2..] == LinesOf(entries);
  }

  // ----- Which texts are journals -----

  lemma {:induction false} SplitOnceMeaning(line: string, sep: char)
    ensures match SplitOnce(line, sep)
            case Ok(parts) => line == parts.0 + [sep] + parts.1 && sep !in parts.0
            case Err(_) => sep !in line
    decreases |line|
  {
    if line != "" && line[0] != sep {
      SplitOnceMeaning(line[1..], sep);
      assert line == [line[0]] + line[1..];
    }
  }

  lemma {:induction false} EntriesRead(lines: seq<string>, seen: set<Path>)
    requires ParseEntries(lines, seen).Ok?
    ensures lines == LinesOf(ParseEntries(lines, seen).value)
    decreases |lines|
  {
    hide ValidRelativePath, Key;
    if lines != [] {
      var parts := SplitOnce(lines[0], '\t').value;
      SplitOnceMeaning(lines[0], '\t');
      EntriesRead(lines[1..], seen + {Key(parts.1)});
      var entries := ParseEntries(lines, seen).value;
      assert entries[1..] == ParseEntries(lines[1..], seen + {Key(parts.1)}).value;
      assert lines[0] == EntryLine(entries[0]);
      assert LinesOf(entries)[1..] == LinesOf(entries[1..]);
      assert lines == [lines[0]] + lines[1..];
    }
  }

  /** A text is read as a journal of these entries exactly when its lines are the
      version, the prepared phase, and one line for each of the entries, of which
      there is one at least, with valid and different paths. */
  lemma AcceptedJournals(text: string, entries: seq<Entry>)
    ensures ParseJournal(text) == Ok(entries) <==>
              Journalable(entries) && Lines(text) == ["THISTLE_BUNDLE_V1", "phase=prepared"] + LinesOf(entries)
  {
    hide Lines;
    var lines := Lines(text);
    assert Prepared.AsStr() == "prepared" && "phase=" + "prepared" == "phase=prepared";
    if Journalable(entries) && lines == ["THISTLE_BUNDLE_V1", "phase=prepared"] + LinesOf(entries) {
      assert lines[2..] == LinesOf(entries) && lines[1] == "phase=prepared";
      assert lines[1][6..] == "prepared";
      EntriesParse(entries, {});
    }
    if ParseJournal(text) == Ok(entries) {
      JournalLines(text);
    }
  }

  lemma JournalLines(text: string)
    requires ParseJournal(text).Ok?
    ensures Lines(text) == ["THISTLE_BUNDLE_V1", "phase=prepared"] + LinesOf(ParseJournal(text).value)
  {
    hide Lines, ParseEntries, LinesOf;
    var lines := Lines(text);
    EntriesRead(lines[2..], {});
    PhaseIsPrepared(lines[1][6..]);
    assert lines[1] == lines[1][..6] + lines[1][6..] && lines[1][..6] == "phase=";
    assert "phase=" + "prepared" == "phase=prepared";
    assert lines == [lines[0], lines[1]] + lines[2..];
  }

  lemma PhaseIsPrepared(value: string)
    requires ParsePhase(value) == Ok(Prepared)
    ensures value == "prepared"
  {
  }

  /** The text of a journal of one entry. */
  lemma OneEntryText(path: string)
    ensures JournalText([Entry(true, path)]) == "THISTLE_BUNDLE_V1\n" + "phase=prepared\n" + "1\t" + path + "\n"
    ensures JournalText([Entry(false, path)]) == "THISTLE_BUNDLE_V1\n" + "phase=prepared\n" + "0\t" + path + "\n"
  {
    assert EntryLines([]) == "" && [Entry(true, path)][1..] == [] && [Entry(false, path)][1..] == [];
  }
}
