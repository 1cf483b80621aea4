/** Reading the vault's JSON back: the parser, and exactly which entries survive
    being written and read. */
module VaultParse {
  import opened Text
  import opened VaultJson

  /** `strstr`: where `needle` first occurs. */
  function Find(text: string, needle: string): (r: Option<nat>)
    ensures r.Some? ==> r.value <= |text| && needle <= text[r.value..]
  {
    if needle <= text then Some(0)
    else if text == "" then None
    else
      var rest := Find(text[1..], needle);
      assert rest.Some? ==> text[1..][rest.value..] == text[rest.value + 1..];
      Further(1, rest)
  }

  /** `seek_key` and `parse_field`, from the place where the object begins. */
  function ReadField(object_: string, key: string): Option<string> {
    match Find(object_, Needle(key))
    case None => None
    case Some(at) => Some(Unescape(object_[at + |Needle(key)|..], FIELD_MAX - 1))
  }

  function ReadObject(object_: string): Option<Entry> {
    var name := ReadField(object_, "name");
    var username := ReadField(object_, "user");
    var password := ReadField(object_, "pass");
    var notes := ReadField(object_, "notes");
    if name.Some? && username.Some? && password.Some? && notes.Some? then
      Some(Entry(name.value, username.value, password.value, notes.value))
    else None
  }

  /** What the loop of `json_to_entries` reads from `text`, at most `budget` entries. */
  function ParseEntries(text: string, budget: nat): seq<Entry>
    decreases |text|, 0
  {
    if budget == 0 then []
    else
      match FindChar(text, '{')
      case None => []
      case Some(start) => ParseInside(text[start + 1..], budget)
  }

  /** The same, from behind an opening brace. */
  function ParseInside(inside: string, budget: nat): seq<Entry>
    requires budget > 0
    decreases |inside|, 1
  {
    var found := AsSeq(ReadObject(inside));
    match FindChar(inside, '}')
    case None => found
    case Some(end) => found + ParseEntries(inside[end + 1..], budget - |found|)
  }

  function AsSeq(entry: Option<Entry>): (found: seq<Entry>)
    ensures |found| <= 1
  {
    match entry
    case None => []
    case Some(e) => [e]
  }

  function FromJson(json: string): seq<Entry> {
    ParseEntries(json, MAX_ENTRIES)
  }

  lemma ParseStep(text: string, budget: nat, start: nat)
    requires budget > 0 && FindChar(text, '{') == Some(start)
    ensures ParseEntries(text, budget) == ParseInside(text[start + 1..], budget)
  {
    hide FindChar, ParseInside;
  }

  lemma ParseEnd(text: string, budget: nat)
    requires budget == 0 || '{' !in text
    ensures ParseEntries(text, budget) == []
  {
    assert FindChar(text, '{').None? || budget == 0;
  }

  /** One round of the loop of `json_to_entries`: what it reads, and where the next one begins. */
  method ReadRound(text: string) returns (entry: Option<Entry>, next: Option<nat>)
    ensures next.Some? ==> 0 < next.value <= |text|
    ensures forall budget: nat :: budget > 0 ==>
              var found := AsSeq(entry);
              ParseEntries(text, budget)
              == found + if next.None? then [] else ParseEntries(text[next.value..], budget - |found|)
  {
    hide ReadObject, FindChar, ParseEntries;
    var start := FindChar(text, '{');
    if start.None? {
      forall budget: nat | budget > 0
        ensures ParseEntries(text, budget) == []
      {
        ParseEnd(text, budget);
      }
      return None, None;
    }
    var inside := text[start.value + 1..];
    entry := ReadObject(inside);
    var end := FindChar(inside, '}');
    next := if end.None? then None else Some(start.value + 1 + end.value + 1);
    forall budget: nat | budget > 0
      ensures ParseEntries(text, budget) == ParseInside(inside, budget)
    {
      ParseStep(text, budget, start.value);
    }
    assert end.Some? ==> inside[end.value + 1..] == text[next.value..];
  }

  lemma Regrouped(entries: seq<Entry>, entry: Entry, rest: seq<Entry>)
    ensures entries + ([entry] + rest) == entries + [entry] + rest
    ensures entries + ([] + rest) == entries + rest
    ensures entries + [] == entries
  {
  }

  /** `json_to_entries`. */
  method JsonToEntries(json: string) returns (entries: seq<Entry>)
    ensures entries == FromJson(json)
  {
    hide ParseEntries;
    entries := [];
    var pos := 0;
    assert json[0..] == json;
    while pos < |json| && |entries| < MAX_ENTRIES
      invariant 0 <= pos <= |json| && |entries| <= MAX_ENTRIES
      invariant FromJson(json) == entries + ParseEntries(json[pos..], MAX_ENTRIES - |entries|)
      decreases |json| - pos
    {
      var entry, next := ReadRound(json[pos..]);
      ghost var budget := MAX_ENTRIES - |entries| - |AsSeq(entry)|;
      ghost var rest := if next.None? then [] else ParseEntries(json[pos..][next.value..], budget);
      if entry.Some? {
        Regrouped(entries, entry.value, rest);
        entries := entries + [entry.value];
      }
      if next.None? {
        return;
      }
      assert json[pos..][next.value..] == json[pos + next.value..];
      pos := pos + next.value;
    }
    ParseEnd(json[pos..], MAX_ENTRIES - |entries|);
  }

  // ----- A key is never found inside a value -----

  predicate Letters(key: string) {
    forall c :: c in key ==> 'a' <= c <= 'z'
  }

  lemma {:induction false} NoKeyInValue(value: string, letters: string, rest: string)
    requires Letters(letters) && rest != "" && rest[0] != ':'
    ensures !(letters + "\":\"" <= Escape(value) + "\"" + rest)
    decreases |value|
  {
    var pattern, text := letters + "\":\"", Escape(value) + "\"" + rest;
    if letters == "" {
      assert pattern == "\":\"";
      assert pattern[0] == '"' && pattern[1] == ':';
      assert if value == "" then text[1] == rest[0] else text[0] == Escape(value)[0] != '"';
    } else if value != "" && value[0] == letters[0] {
      assert letters[0] in letters && forall c :: c in letters[1..] ==> c in letters;
      assert text[1..] == Escape(value[1..]) + "\"" + rest;
      assert pattern[1..] == letters[1..] + "\":\"";
      NoKeyInValue(value[1..], letters[1..], rest);
      if pattern <= text {
        PrefixTail(pattern, text);
        assert false;
      }
    } else {
      assert letters[0] in letters && pattern[0] == letters[0];
      assert value == "" ==> text[0] == '"';
    }
  }

  lemma PrefixTail(pattern: string, text: string)
    requires pattern != "" && pattern <= text
    ensures pattern[1..] <= text[1..]
  {
    assert pattern == text[..|pattern|];
  }

  /** No occurrence of `needle` begins in `text` from `from` on and before `until`. */
  ghost predicate NoneBetween(text: string, needle: string, from: nat, until: nat) {
    forall p :: from <= p < until && p <= |text| ==> !(needle <= text[p..])
  }

  lemma NeedleBegins(key: string, text: string)
    requires key != "" && Needle(key) <= text
    ensures |text| > 1 && text[0] == '"' && text[1] == key[0]
    ensures key + "\":\"" <= text[1..]
  {
    assert Needle(key)[0] == '"' && Needle(key)[1] == key[0];
    PrefixTail(Needle(key), text);
    assert Needle(key)[1..] == key + "\":\"";
  }

  lemma {:induction false} NoNeedleInValue(value: string, key: string, rest: string)
    requires Letters(key) && key != "" && rest != "" && rest[0] != ':' && rest[0] != key[0]
    ensures NoneBetween(Escape(value) + "\"" + rest, Needle(key), 0, |Escape(value)| + 1)
    decreases |value|
  {
    var text := Escape(value) + "\"" + rest;
    var special := value != "" && (value[0] == '"' || value[0] == '\\');
    if value == "" {
      assert text[0] == '"' && text[1] == rest[0];
    } else {
      var unit := if special then 2 else 1;
      var tail := Escape(value[1..]) + "\"" + rest;
      assert text[unit..] == tail;
      NoNeedleInValue(value[1..], key, rest);
      NoKeyInValue(value[1..], key, rest);
      assert special ==> text[1..][1..] == tail;
      forall p | unit <= p < |Escape(value)| + 1
        ensures !(Needle(key) <= text[p..])
      {
        assert text[p..] == tail[p - unit..];
      }
      if special && Needle(key) <= text[1..] {
        NeedleBegins(key, text[1..]);
        assert false;
      }
    }
    if Needle(key) <= text[0..] {
      NeedleBegins(key, text[0..]);
      assert false;
    }
  }

  predicate IsKey(key: string) {
    key == "name" || key == "user" || key == "pass" || key == "notes"
  }

  lemma KeysAreLetters(key: string)
    requires IsKey(key)
    ensures Letters(key) && key != "" && key[0] != ',' && key[0] != '}'
  {
    assert key[0] in key;
  }

  /** In a printed field a key is found at its beginning or not at all. */
  lemma NoNeedleInField(own: string, value: string, key: string, rest: string)
    requires IsKey(own) && IsKey(key) && rest != "" && (rest[0] == ',' || rest[0] == '}')
    ensures NoneBetween(Field(own, value) + rest, Needle(key), 1, |Field(own, value)|)
    ensures own != key ==> NoneBetween(Field(own, value) + rest, Needle(key), 0, |Field(own, value)|)
  {
    hide IsKey, Escape;
    var text := Field(own, value) + rest;
    KeysAreLetters(own);
    KeysAreLetters(key);
    var inner := Escape(value) + "\"" + rest;
    var open := |own| + 4;
    FieldText(own, value, rest);
    NoNeedleInValue(value, key, rest);
    NoKeyInValue(value, key, rest);
    if own != key {
      DifferentKeys(own, key, inner);
    }
    forall p | 0 < p < |Field(own, value)|
      ensures !(Needle(key) <= text[p..])
    {
      if p >= open {
        assert text[p..] == inner[p - open..];
      } else {
        assert p == open - 1 ==> text[p..][1..] == inner;
        assert p <= |own| ==> own[p - 1] in own;
        assert key[0] in key;
        if Needle(key) <= text[p..] {
          NeedleBegins(key, text[p..]);
          assert false;
        }
      }
    }
    assert text[0..] == text;
  }

  lemma FieldText(own: string, value: string, rest: string)
    ensures var text := Field(own, value) + rest;
            var inner := Escape(value) + "\"" + rest;
            && |Field(own, value)| == |own| + 4 + |Escape(value)| + 1
            && text == "\"" + own + "\":\"" + inner
            && text[|own| + 4..] == inner
            && (forall p :: 0 < p <= |own| ==> text[p] == own[p - 1])
            && text[|own| + 1] == '"' && text[|own| + 2] == ':' && text[|own| + 3] == '"'
  {
    hide Escape;
  }

  lemma DifferentKeys(own: string, key: string, inner: string)
    requires IsKey(own) && IsKey(key) && own != key
    ensures !(Needle(key) <= "\"" + own + "\":\"" + inner)
  {
    var text := "\"" + own + "\":\"" + inner;
    assert "name"[1] == 'a' && "notes"[1] == 'o' && |"name"| == |"user"| == |"pass"| == 4;
    if own[0] == key[0] {
      assert Needle(key)[2] == key[1] && text[2] == own[1];
    } else {
      assert Needle(key)[1] == key[0] && text[1] == own[0];
    }
  }

  // ----- An object is read as the entry it was printed from -----

  lemma FindNotHere(text: string, needle: string)
    requires text != "" && !(needle <= text)
    ensures Find(text, needle) == Further(1, Find(text[1..], needle))
  {
  }

  lemma NoneInRest(text: string, needle: string, n: nat)
    requires 0 < n <= |text| && NoneBetween(text, needle, 0, n)
    ensures !(needle <= text) && NoneBetween(text[1..], needle, 0, n - 1)
  {
    assert text[0..] == text;
    forall p | 0 <= p < n - 1
      ensures !(needle <= text[1..][p..])
    {
      assert text[1..][p..] == text[p + 1..];
    }
  }

  lemma {:induction false} FindSkips(text: string, needle: string, n: nat)
    requires needle != "" && n <= |text| && NoneBetween(text, needle, 0, n)
    ensures Find(text, needle) == Further(n, Find(text[n..], needle))
    decreases n
  {
    hide Find, NoneBetween;
    if n == 0 {
      assert text[0..] == text;
    } else {
      NoneInRest(text, needle, n);
      FindNotHere(text, needle);
      FindSkips(text[1..], needle, n - 1);
      DropTwice(text, n);
    }
  }

  lemma DropTwice(text: string, n: nat)
    requires 0 < n <= |text|
    ensures text[1..][n - 1..] == text[n..]
  {
  }

  lemma ReadFieldSkips(before: string, after: string, key: string)
    requires key != "" && NoneBetween(before + after, Needle(key), 0, |before|)
    ensures ReadField(before + after, key) == ReadField(after, key)
  {
    hide Find;
    var text := before + after;
    assert text[|before|..] == after;
    FindSkips(text, Needle(key), |before|);
    var at := Find(after, Needle(key));
    if at.Some? {
      assert text[|before| + at.value + |Needle(key)|..] == after[at.value + |Needle(key)|..];
    }
  }

  lemma FieldIsRead(key: string, value: string, rest: string)
    requires |value| < FIELD_MAX
    ensures ReadField(Field(key, value) + rest, key) == Some(value)
  {
    var text := Field(key, value) + rest;
    assert Needle(key) <= text;
    assert text[|Needle(key)|..] == Escape(value) + "\"" + rest;
    UnescapeEscape(value, rest, FIELD_MAX - 1);
  }

  // ----- A printed entry, field by field -----

  /** One field of a printed entry, with the character behind it. */
  datatype Part = Part(key: string, value: string, end: char) {
    function Text(): string {
      Field(key, value) + [end]
    }

    predicate Valid() {
      IsKey(key) && (end == ',' || end == '}')
    }
  }

  function PartsText(parts: seq<Part>): string {
    if parts == [] then "" else parts[0].Text() + PartsText(parts[1..])
  }

  function Parts(e: Entry): (parts: seq<Part>)
    ensures |parts| == 4 && forall j :: 0 <= j < 4 ==> parts[j].Valid()
    ensures parts[0].key == "name" && parts[1].key == "user" && parts[2].key == "pass" && parts[3].key == "notes"
  {
    [Part("name", e.name, ','), Part("user", e.username, ','), Part("pass", e.password, ','),
        Part("notes", e.notes, '}')]
  }

  /** A printed entry from behind its opening brace, with its closing brace. */
  function Closed(e: Entry): (text: string)
    ensures text != "" && text[|text| - 1] == '}'
  {
    Body(e) + "}"
  }

  /** Where field `j` of a printed entry begins. */
  function Offset(e: Entry, j: nat): nat
    requires j < 4
  {
    |PartsText(Parts(e)[..j])|
  }

  lemma ClosedIsParts(e: Entry)
    ensures Closed(e) == PartsText(Parts(e))
  {
    hide Field;
    var p := Parts(e);
    assert PartsText(p[3..]) == p[3].Text() + PartsText(p[3..][1..]) && p[3..][1..] == [];
    assert PartsText(p[2..]) == p[2].Text() + PartsText(p[2..][1..]) && p[2..][1..] == p[3..];
    assert PartsText(p[1..]) == p[1].Text() + PartsText(p[1..][1..]) && p[1..][1..] == p[2..];
  }

  lemma NoneShifted(piece: string, text: string, needle: string, from: nat, n: nat)
    requires NoneBetween(text, needle, from, n)
    ensures NoneBetween(piece + text, needle, |piece| + from, |piece| + n)
  {
    forall p | |piece| + from <= p < |piece| + n && p <= |piece + text|
      ensures !(needle <= (piece + text)[p..])
    {
      assert (piece + text)[p..] == text[p - |piece|..];
    }
  }

  /** A piece without the key, and a text behind it without the key. */
  lemma NonePrepended(piece: string, text: string, needle: string, from: nat, n: nat)
    requires from <= |piece|
    requires NoneBetween(piece + text, needle, from, |piece|) && NoneBetween(text, needle, 0, n)
    ensures NoneBetween(piece + text, needle, from, |piece| + n)
  {
    NoneShifted(piece, text, needle, 0, n);
  }

  lemma NoneInPart(part: Part, key: string, rest: string)
    requires part.Valid() && IsKey(key)
    ensures NoneBetween(part.Text() + rest, Needle(key), 1, |part.Text()|)
    ensures part.key != key ==> NoneBetween(part.Text() + rest, Needle(key), 0, |part.Text()|)
  {
    hide Field, Needle, IsKey;
    var field, text := Field(part.key, part.value), part.Text() + rest;
    KeysAreLetters(key);
    NoNeedleInField(part.key, part.value, key, [part.end] + rest);
    assert text == field + ([part.end] + rest) && text[|field|] == part.end;
    if Needle(key) <= text[|field|..] {
      NeedleBegins(key, text[|field|..]);
      assert false;
    }
  }

  lemma {:induction false} NoneInParts(parts: seq<Part>, key: string, rest: string)
    requires IsKey(key) && forall j :: 0 <= j < |parts| ==> parts[j].Valid() && parts[j].key != key
    ensures NoneBetween(PartsText(parts) + rest, Needle(key), 0, |PartsText(parts)|)
    decreases |parts|
  {
    hide Needle, IsKey, NoneBetween;
    if parts == [] {
      NothingBetween(rest, Needle(key));
      assert PartsText(parts) + rest == rest;
    } else {
      var behind := PartsText(parts[1..]) + rest;
      NoneInParts(parts[1..], key, rest);
      NoneInPart(parts[0], key, behind);
      NonePrepended(parts[0].Text(), behind, Needle(key), 0, |PartsText(parts[1..])|);
      assert PartsText(parts) + rest == parts[0].Text() + behind;
    }
  }

  lemma NothingBetween(text: string, needle: string)
    ensures NoneBetween(text, needle, 0, 0)
  {
  }

  /** In a printed entry a key is found where its field begins, and nowhere else. */
  lemma {:induction false} KeyInParts(parts: seq<Part>, j: nat, rest: string)
    requires j < |parts|
    requires forall i :: 0 <= i < |parts| ==> parts[i].Valid() && (i != j ==> parts[i].key != parts[j].key)
    ensures var text, at := PartsText(parts) + rest, |PartsText(parts[..j])|;
            && at < |PartsText(parts)|
            && NoneBetween(text, Needle(parts[j].key), 0, at)
            && NoneBetween(text, Needle(parts[j].key), at + 1, |PartsText(parts)|)
            && text[at..] == Field(parts[j].key, parts[j].value) + ([parts[j].end] + PartsText(parts[j + 1..]) + rest)
    decreases |parts|
  {
    hide Needle, Field, IsKey, NoneBetween, PartsText;
    var key, piece, behind := parts[j].key, parts[0].Text(), PartsText(parts[1..]) + rest;
    FirstPart(parts, rest);
    NoneInPart(parts[0], key, behind);
    if j == 0 {
      NoneInParts(parts[1..], key, rest);
      NonePrepended(piece, behind, Needle(key), 1, |PartsText(parts[1..])|);
      NothingBetween(piece + behind, Needle(key));
      FirstField(parts, rest);
    } else {
      var at := |PartsText(parts[1..][..j - 1])|;
      KeyInParts(parts[1..], j - 1, rest);
      PrefixOfParts(parts, j);
      NonePrepended(piece, behind, Needle(key), 0, at);
      NoneShifted(piece, behind, Needle(key), at + 1, |PartsText(parts[1..])|);
      assert (piece + behind)[|piece| + at..] == behind[at..];
    }
  }

  lemma FirstPart(parts: seq<Part>, rest: string)
    requires parts != []
    ensures PartsText(parts) + rest == parts[0].Text() + (PartsText(parts[1..]) + rest)
    ensures |PartsText(parts)| == |parts[0].Text()| + |PartsText(parts[1..])|
  {
    hide Field;
  }

  lemma FirstField(parts: seq<Part>, rest: string)
    requires parts != []
    ensures |PartsText(parts[..0])| == 0 < |PartsText(parts)|
    ensures (PartsText(parts) + rest)[0..] == Field(parts[0].key, parts[0].value)
            + ([parts[0].end] + PartsText(parts[1..]) + rest)
  {
    hide Field;
    assert parts[..0] == [];
    EndBehind(Field(parts[0].key, parts[0].value), parts[0].end, PartsText(parts[1..]), rest);
  }

  lemma EndBehind(field: string, end: char, behind: string, rest: string)
    ensures (field + [end] + behind + rest)[0..] == field + ([end] + behind + rest)
  {
  }

  lemma PrefixOfParts(parts: seq<Part>, j: nat)
    requires 0 < j < |parts|
    ensures PartsText(parts[..j]) == parts[0].Text() + PartsText(parts[1..][..j - 1])
    ensures parts[1..][j - 1 + 1..] == parts[j + 1..]
  {
    hide Field;
    assert parts[..j][1..] == parts[1..][..j - 1];
  }

  /** Reading from `p` is reading from `n` when the key is not found in between. */
  lemma ReadFieldFrom(text: string, key: string, p: nat, n: nat)
    requires p <= n <= |text| && key != "" && NoneBetween(text, Needle(key), p, n)
    ensures ReadField(text[p..], key) == ReadField(text[n..], key)
  {
    var before, after := text[p..n], text[n..];
    assert text[p..] == before + after;
    forall q | 0 <= q < |before| && q <= |before + after|
      ensures !(Needle(key) <= (before + after)[q..])
    {
      assert (before + after)[q..] == text[p + q..];
    }
    ReadFieldSkips(before, after, key);
  }

  /** Reading a field from place `p` of a printed entry gives the entry's own if the
      field does not begin before `p`, and otherwise what is found behind the entry. */
  lemma FieldFrom(e: Entry, p: nat, j: nat, rest: string)
    requires j < 4 && p <= |Closed(e)| && |Parts(e)[j].value| < FIELD_MAX
    ensures ReadField((Closed(e) + rest)[p..], Parts(e)[j].key) ==
            if p <= Offset(e, j) then Some(Parts(e)[j].value) else ReadField(rest, Parts(e)[j].key)
  {
    hide ReadField, Needle, Field, NoneBetween, Body, PartsText, Closed;
    var parts, text := Parts(e), Closed(e) + rest;
    var key, at := parts[j].key, Offset(e, j);
    ClosedIsParts(e);
    KeysDiffer(e, j);
    KeyInParts(parts, j, rest);
    KeysAreLetters(key);
    if p <= at {
      NoneWithin(text, Needle(key), 0, at, p, at);
      ReadFieldFrom(text, key, p, at);
      FieldIsRead(key, parts[j].value, [parts[j].end] + PartsText(parts[j + 1..]) + rest);
    } else {
      NoneWithin(text, Needle(key), at + 1, |Closed(e)|, p, |Closed(e)|);
      ReadFieldFrom(text, key, p, |Closed(e)|);
      assert text[|Closed(e)|..] == rest;
    }
  }

  lemma NoneWithin(text: string, needle: string, from: nat, until: nat, p: nat, n: nat)
    requires NoneBetween(text, needle, from, until) && from <= p && n <= until
    ensures NoneBetween(text, needle, p, n)
  {
  }

  lemma KeysDiffer(e: Entry, j: nat)
    requires j < 4
    ensures forall i :: 0 <= i < 4 && i != j ==> Parts(e)[i].key != Parts(e)[j].key
  {
    assert "name"[0] == 'n' && "user"[0] == 'u' && "pass"[0] == 'p' && |"notes"| == 5 && |"name"| == 4;
  }

  /** An object is read as the entry it was printed from, whatever follows. */
  lemma ReadsWhatWasPrinted(e: Entry, rest: string)
    requires ValidEntry(e)
    ensures forall j :: 0 <= j < 4 ==> ReadField(Closed(e) + rest, Parts(e)[j].key) == Some(Parts(e)[j].value)
    ensures ReadObject(Closed(e) + rest) == Some(e)
  {
    hide ReadField, Body, PartsText, Closed;
    var text := Closed(e) + rest;
    assert text[0..] == text;
    FieldFrom(e, 0, 0, rest);
    FieldFrom(e, 0, 1, rest);
    FieldFrom(e, 0, 2, rest);
    FieldFrom(e, 0, 3, rest);
  }

  // ----- What is read from any text -----

  /** `value` is the text behind the first occurrence of the key in `inside`. */
  ghost predicate HasField(inside: string, key: string, value: string) {
    exists at: nat :: FirstAt(inside, "\"" + key + "\":\"", at)
                 && value == Unescape(inside[at + |key| + 4..], 63)
  }

  ghost predicate FirstAt(text: string, needle: string, at: nat) {
    at <= |text| - |needle| && needle <= text[at..] && NoneBetween(text, needle, 0, at)
  }

  lemma {:induction false} FindMeaning(text: string, needle: string, at: nat)
    requires needle != ""
    ensures FirstAt(text, needle, at) <==> Find(text, needle) == Some(at)
    decreases |text|
  {
    hide Find, NoneBetween;
    if needle <= text {
      FoundHere(text, needle, at);
    } else if text == "" {
      NotInNothing(needle);
    } else {
      FindNotHere(text, needle);
      if at > 0 {
        FindMeaning(text[1..], needle, at - 1);
        FirstShifted(text, needle, at);
      } else {
        assert text[0..] == text;
      }
    }
  }

  lemma FoundHere(text: string, needle: string, at: nat)
    requires needle <= text
    ensures Find(text, needle) == Some(0) && (FirstAt(text, needle, at) <==> at == 0)
  {
    assert text[0..] == text;
  }

  lemma NotInNothing(needle: string)
    requires needle != ""
    ensures Find("", needle).None?
  {
  }

  lemma FirstShifted(text: string, needle: string, at: nat)
    requires text != "" && !(needle <= text) && at > 0
    ensures FirstAt(text, needle, at) <==> FirstAt(text[1..], needle, at - 1)
  {
    if at <= |text| {
      DropTwice(text, at);
      if NoneBetween(text, needle, 0, at) {
        NoneInRest(text, needle, at);
      }
      if NoneBetween(text[1..], needle, 0, at - 1) {
        forall p | 0 <= p < at
          ensures !(needle <= text[p..])
        {
          if p == 0 {
            assert text[0..] == text;
          } else {
            DropTwice(text, p);
          }
        }
      }
    }
  }

  lemma FieldMeaning(inside: string, key: string, value: string)
    ensures HasField(inside, key, value) <==> ReadField(inside, key) == Some(value)
  {
    hide Find, Unescape;
    assert Needle(key) == "\"" + key + "\":\"";
    forall at: nat
      ensures FirstAt(inside, Needle(key), at) <==> Find(inside, Needle(key)) == Some(at)
    {
      FindMeaning(inside, Needle(key), at);
    }
  }

  /** From behind an opening brace an entry is read exactly when all four keys occur,
      each with the text behind its first occurrence. */
  lemma ObjectMeaning(inside: string, e: Entry)
    ensures ReadObject(inside) == Some(e)
            <==> HasField(inside, "name", e.name) && HasField(inside, "user", e.username)
                 && HasField(inside, "pass", e.password) && HasField(inside, "notes", e.notes)
  {
    hide ReadField, HasField;
    FieldMeaning(inside, "name", e.name);
    FieldMeaning(inside, "user", e.username);
    FieldMeaning(inside, "pass", e.password);
    FieldMeaning(inside, "notes", e.notes);
  }

  /** What is read from any text: nothing without an opening brace; else what the object
      behind the first one gives, and then what is read behind the next closing one. */
  lemma ParseLaws(gap: string, inside: string, rest: string, budget: nat)
    requires '{' !in gap && '}' !in inside && budget > 0
    ensures ParseEntries(gap, budget) == [] && ParseEntries(rest, 0) == []
    ensures ParseEntries(gap + ['{'] + inside, budget)
            == match ReadObject(inside) case None => [] case Some(e) => [e]
    ensures ParseEntries(gap + ['{'] + (inside + ['}'] + rest), budget)
            == match ReadObject(inside + ['}'] + rest)
               case None => ParseEntries(rest, budget)
               case Some(e) => [e] + ParseEntries(rest, budget - 1)
  {
    hide ReadObject, ParseEntries, FindChar;
    ParseEnd(gap, budget);
    ParseEnd(rest, 0);
    var open, closed := gap + ['{'] + inside, inside + ['}'] + rest;
    FindCharSkips(gap, '{', inside);
    ParseStep(open, budget, |gap|);
    assert open[|gap| + 1..] == inside && FindChar(inside, '}').None?;
    FindCharSkips(gap, '{', closed);
    ParseStep(gap + ['{'] + closed, budget, |gap|);
    assert (gap + ['{'] + closed)[|gap| + 1..] == closed;
    FindCharSkips(inside, '}', rest);
    assert closed[|inside| + 1..] == rest;
  }

  // ----- What can be read at all -----

  lemma {:induction false} UnescapedFits(src: string, room: nat)
    requires '\0' !in src
    ensures |Unescape(src, room)| <= room && '\0' !in Unescape(src, room)
    decreases |src|
  {
    if src == "" || room == 0 || src[0] == '"' {
      UnescapeDone(src, room);
    } else {
      UnescapeStep(src, room);
      assert src[0] in src && (|src| > 1 ==> src[1] in src);
      if src[0] == '\\' && |src| > 1 {
        assert forall c :: c in src[2..] ==> c in src;
        UnescapedFits(src[2..], room - 1);
      } else {
        assert forall c :: c in src[1..] ==> c in src;
        UnescapedFits(src[1..], room - 1);
      }
    }
  }

  lemma FieldFits(object_: string, key: string)
    requires '\0' !in object_ && ReadField(object_, key).Some?
    ensures Fits(ReadField(object_, key).value)
  {
    hide Find;
    var at := Find(object_, Needle(key)).value + |Needle(key)|;
    assert forall c :: c in object_[at..] ==> c in object_;
    UnescapedFits(object_[at..], FIELD_MAX - 1);
  }

  lemma ObjectFits(object_: string)
    requires '\0' !in object_ && ReadObject(object_).Some?
    ensures ValidEntry(ReadObject(object_).value)
  {
    hide ReadField;
    FieldFits(object_, "name");
    FieldFits(object_, "user");
    FieldFits(object_, "pass");
    FieldFits(object_, "notes");
  }

  ghost predicate AllValid(entries: seq<Entry>) {
    forall e :: e in entries ==> ValidEntry(e)
  }

  lemma {:induction false} EntriesFit(text: string, budget: nat)
    requires '\0' !in text
    ensures |ParseEntries(text, budget)| <= budget && AllValid(ParseEntries(text, budget))
    decreases |text|, 0
  {
    hide ParseEntries, ParseInside, FindChar, ValidEntry;
    var start := FindChar(text, '{');
    if budget == 0 || start.None? {
      ParseEnd(text, budget);
    } else {
      ParseStep(text, budget, start.value);
      NoNulBehind(text, start.value + 1);
      InsideFits(text[start.value + 1..], budget);
    }
  }

  lemma {:induction false} InsideFits(inside: string, budget: nat)
    requires '\0' !in inside && budget > 0
    ensures |ParseInside(inside, budget)| <= budget && AllValid(ParseInside(inside, budget))
    decreases |inside|, 1
  {
    hide ParseEntries, FindChar, ValidEntry, ReadObject;
    var found, end := AsSeq(ReadObject(inside)), FindChar(inside, '}');
    if ReadObject(inside).Some? {
      ObjectFits(inside);
    }
    if end.Some? {
      NoNulBehind(inside, end.value + 1);
      EntriesFit(inside[end.value + 1..], budget - |found|);
    }
  }

  lemma NoNulBehind(text: string, n: nat)
    requires '\0' !in text && n <= |text|
    ensures '\0' !in text[n..]
  {
  }

  /** Whatever text is parsed, there are at most 32 entries, and their fields fit. */
  lemma ParsedAreValid(json: string)
    requires '\0' !in json
    ensures |FromJson(json)| <= MAX_ENTRIES && forall e :: e in FromJson(json) ==> ValidEntry(e)
  {
    EntriesFit(json, MAX_ENTRIES);
  }
}
