/** The vault's own JSON: how the entries are printed and read back.
    C strings are their contents up to the terminating NUL, one `char` a byte. */
module VaultJson {
  import opened Text

  const FIELD_MAX := 64
  const MAX_ENTRIES := 32
  /** The room that `entries_to_json` plans for one entry. */
  const ENTRY_ROOM := FIELD_MAX * 8 + 64

  datatype Entry = Entry(name: string, username: string, password: string, notes: string)

  /** What fits in a `char[FIELD_MAX]` with its terminator. */
  predicate Fits(field: string) {
    |field| < FIELD_MAX && '\0' !in field
  }

  predicate ValidEntry(e: Entry) {
    Fits(e.name) && Fits(e.username) && Fits(e.password) && Fits(e.notes)
  }

  // ----- Escaping -----

  function Escape(text: string): string {
    if text == "" then ""
    else if text[0] == '"' || text[0] == '\\' then ['\\', text[0]] + Escape(text[1..])
    else [text[0]] + Escape(text[1..])
  }

  lemma {:induction false} EscapeLength(text: string)
    ensures |text| <= |Escape(text)| <= 2 * |text|
  {
    if text != "" {
      EscapeLength(text[1..]);
    }
  }

  lemma {:induction false} EscapeAppend(text: string, c: char)
    ensures Escape(text + [c]) == Escape(text) + (if c == '"' || c == '\\' then ['\\', c] else [c])
  {
    if text != "" {
      EscapeAppend(text[1..], c);
      assert (text + [c])[1..] == text[1..] + [c];
    } else {
      assert text + [c] == [c];
    }
  }

  /** `json_escape`, into a buffer of `dstMax` bytes; a text that is too long is cut off. */
  method JsonEscape(src: string, dstMax: nat) returns (dst: string)
    requires dstMax > 0
    ensures |dst| < dstMax
    ensures 2 * |src| + 3 <= dstMax + 1 ==> dst == Escape(src)
  {
    dst := "";
    var i := 0;
    while i < |src| && |dst| + 3 < dstMax
      invariant 0 <= i <= |src|
      invariant dst == Escape(src[..i])
      invariant |dst| < dstMax
    {
      assert src[..i + 1] == src[..i] + [src[i]];
      EscapeAppend(src[..i], src[i]);
      if src[i] == '"' || src[i] == '\\' {
        dst := dst + ['\\'];
      }
      dst := dst + [src[i]];
      i := i + 1;
    }
    EscapeLength(src[..i]);
    assert src[..|src|] == src;
  }

  /** What `json_unescape` puts in a buffer with room for `room` characters. */
  function Unescape(src: string, room: nat): string
    decreases room
  {
    if src == "" || room == 0 || src[0] == '"' then ""
    else if src[0] == '\\' && |src| > 1 then [src[1]] + Unescape(src[2..], room - 1)
    else [src[0]] + Unescape(src[1..], room - 1)
  }

  lemma UnescapeStep(src: string, room: nat)
    requires src != "" && room > 0 && src[0] != '"'
    ensures Unescape(src, room) ==
            if src[0] == '\\' && |src| > 1 then [src[1]] + Unescape(src[2..], room - 1)
            else [src[0]] + Unescape(src[1..], room - 1)
  {
  }

  lemma UnescapeDone(src: string, room: nat)
    requires src == "" || room == 0 || src[0] == '"'
    ensures Unescape(src, room) == ""
  {
  }

  method JsonUnescape(src: string, dstMax: nat) returns (dst: string)
    requires dstMax > 0
    ensures dst == Unescape(src, dstMax - 1)
    ensures |dst| < dstMax
  {
    hide Unescape;
    dst := "";
    var i := 0;
    assert src[0..] == src;
    while i < |src| && |dst| + 1 < dstMax
      invariant 0 <= i <= |src| && |dst| < dstMax
      invariant Unescape(src, dstMax - 1) == dst + Unescape(src[i..], dstMax - 1 - |dst|)
    {
      if src[i] == '"' {
        UnescapeDone(src[i..], dstMax - 1 - |dst|);
        return;
      }
      UnescapeStep(src[i..], dstMax - 1 - |dst|);
      if src[i] == '\\' && i + 1 < |src| {
        assert src[i..][2..] == src[i + 2..];
        i := i + 1;
      } else {
        assert src[i..][1..] == src[i + 1..];
      }
      dst := dst + [src[i]];
      i := i + 1;
    }
    UnescapeDone(src[i..], dstMax - 1 - |dst|);
  }

  /** An escaped value, up to a quote, the end or a full buffer, is read as the value,
      as far as there is room for it. */
  lemma {:induction false} UnescapeCut(value: string, rest: string, room: nat)
    requires room <= |value| || rest == "" || rest[0] == '"'
    ensures Unescape(Escape(value) + rest, room) == if |value| <= room then value else value[..room]
  {
    hide Unescape;
    if value == "" || room == 0 {
      UnescapeDone(Escape(value) + rest, room);
    } else {
      UnescapeCut(value[1..], rest, room - 1);
      UnescapeHead(value, rest, room);
      HeadAndTail(value, room);
    }
  }

  lemma UnescapeHead(value: string, rest: string, room: nat)
    requires value != "" && room > 0
    ensures Unescape(Escape(value) + rest, room) == [value[0]] + Unescape(Escape(value[1..]) + rest, room - 1)
  {
    hide Unescape, Escape;
    EscapeHead(value);
    var tail := Escape(value[1..]) + rest;
    if value[0] == '"' || value[0] == '\\' {
      UnescapeBackslash(value[0], tail, room);
      assert ['\\', value[0]] + Escape(value[1..]) + rest == ['\\', value[0]] + tail;
    } else {
      UnescapeStep([value[0]] + tail, room);
      assert ([value[0]] + tail)[1..] == tail;
      assert [value[0]] + Escape(value[1..]) + rest == [value[0]] + tail;
    }
  }

  lemma EscapeHead(value: string)
    requires value != ""
    ensures Escape(value) ==
            (if value[0] == '"' || value[0] == '\\' then ['\\', value[0]] else [value[0]]) + Escape(value[1..])
  {
  }

  lemma HeadAndTail(value: string, room: nat)
    requires value != "" && room > 0
    ensures [value[0]] + value[1..] == value
    ensures room <= |value| ==> [value[0]] + value[1..][..room - 1] == value[..room]
  {
  }

  /** Unescaping undoes escaping, for every value that fits the field it is read into. */
  lemma UnescapeEscape(value: string, rest: string, room: nat)
    requires |value| <= room
    ensures Unescape(Escape(value) + "\"" + rest, room) == value
  {
    hide Unescape, Escape;
    UnescapeCut(value, "\"" + rest, room);
    assert Escape(value) + "\"" + rest == Escape(value) + ("\"" + rest);
  }

  /** A backslash gives the character behind it, whichever that is, and itself at the end. */
  lemma UnescapeBackslash(c: char, rest: string, room: nat)
    requires room > 0
    ensures Unescape(['\\', c] + rest, room) == [c] + Unescape(rest, room - 1)
    ensures Unescape("\\", room) == "\\"
  {
    assert (['\\', c] + rest)[2..] == rest;
    UnescapeStep("\\", room);
  }

  // ----- Printing -----

  function Needle(key: string): string {
    "\"" + key + "\":\""
  }

  function Field(key: string, value: string): string {
    Needle(key) + Escape(value) + "\""
  }

  function Body(e: Entry): string {
    Field("name", e.name) + "," + Field("user", e.username) + "," + Field("pass", e.password) + ","
        + Field("notes", e.notes)
  }

  function Printed(e: Entry): string {
    "{" + Body(e) + "}"
  }

  function PrintAll(entries: seq<Entry>): string {
    if entries == [] then ""
    else (if |entries| == 1 then "" else PrintAll(entries[..|entries| - 1]) + ",") + Printed(entries[|entries| - 1])
  }

  function ToJson(entries: seq<Entry>): string {
    "[" + PrintAll(entries) + "]"
  }

  /** The size of the buffer that `entries_to_json` allocates. */
  function Capacity(count: nat): nat {
    count * ENTRY_ROOM + 16
  }

  /** `if (pos + 1 < cap) buf[pos++] = c`, where `buf` is what has been written. */
  method PutChar(buf: string, cap: nat, c: char) returns (next: string)
    ensures next == if |buf| + 1 < cap then buf + [c] else buf
  {
    next := if |buf| + 1 < cap then buf + [c] else buf;
  }

  /** `snprintf` at the end of what has been written. It cuts off what does not
      fit, and the position advances all the same, out of the buffer: `ok` is false then. */
  method PutText(buf: string, cap: nat, text: string) returns (next: string, ok: bool)
    ensures ok <==> |buf| + |text| < cap
    ensures ok ==> next == buf + text
  {
    ok := |buf| + |text| < cap;
    next := if ok then buf + text else buf;
  }

  /** The longest that one entry can get, with the comma before it. */
  lemma PrintedLength(e: Entry)
    requires ValidEntry(e)
    ensures |Printed(e)| + 1 <= ENTRY_ROOM
  {
    EscapeLength(e.name);
    EscapeLength(e.username);
    EscapeLength(e.password);
    EscapeLength(e.notes);
  }

  lemma {:induction false} PrintAllLength(entries: seq<Entry>)
    requires forall e :: e in entries ==> ValidEntry(e)
    ensures |PrintAll(entries)| <= |entries| * ENTRY_ROOM
  {
    hide Printed, ValidEntry;
    if entries != [] {
      var n := |entries| - 1;
      PrintedLength(entries[n]);
      PrintAllLength(entries[..n]);
      assert (n + 1) * ENTRY_ROOM == n * ENTRY_ROOM + ENTRY_ROOM;
    }
  }

  /** One field, through the escape buffer of `FIELD_MAX * 2 + 2` bytes. */
  method AppendField(buf: string, cap: nat, key: string, value: string) returns (next: string, ok: bool)
    requires Fits(value)
    ensures ok <==> |buf| + |Field(key, value)| < cap
    ensures ok ==> next == buf + Field(key, value)
  {
    var escaped := JsonEscape(value, FIELD_MAX * 2 + 2);
    next, ok := PutText(buf, cap, "\"" + key + "\":\"" + escaped + "\"");
  }

  /** A field and the character after it. */
  method AppendFieldAnd(buf: string, cap: nat, key: string, value: string, c: char) returns (next: string)
    requires Fits(value) && |buf| + |Field(key, value)| + 2 < cap
    ensures next == buf + Field(key, value) + [c]
  {
    var ok: bool;
    next, ok := AppendField(buf, cap, key, value);
    next := PutChar(next, cap, c);
  }

  lemma BodyLength(e: Entry)
    ensures |Printed(e)| == |Field("name", e.name)| + |Field("user", e.username)| + |Field("pass", e.password)|
            + |Field("notes", e.notes)| + 5
  {
    hide Field;
  }

  /** One round of the loop of `entries_to_json`. With room for the whole entry nothing is cut off. */
  method AppendEntry(buf: string, cap: nat, e: Entry) returns (next: string)
    requires ValidEntry(e) && |buf| + |Printed(e)| + 1 < cap
    ensures next == buf + Printed(e)
  {
    hide Field;
    BodyLength(e);
    next := PutChar(buf, cap, '{');
    next := AppendFieldAnd(next, cap, "name", e.name, ',');
    next := AppendFieldAnd(next, cap, "user", e.username, ',');
    next := AppendFieldAnd(next, cap, "pass", e.password, ',');
    next := AppendFieldAnd(next, cap, "notes", e.notes, '}');
    assert next == buf + Printed(e);
  }

  /** There is room for the next entry and the comma before it, or for the end. */
  lemma RoomLeft(entries: seq<Entry>, i: nat)
    requires i <= |entries| && forall e :: e in entries ==> ValidEntry(e)
    ensures i < |entries| ==> 1 + |PrintAll(entries[..i])| + 1 + |Printed(entries[i])| + 1 < Capacity(|entries|)
    ensures |PrintAll(entries[..i])| + 3 < Capacity(|entries|)
  {
    hide Printed, PrintAll, ValidEntry;
    assert forall e :: e in entries[..i] ==> e in entries;
    PrintAllLength(entries[..i]);
    assert i * ENTRY_ROOM + (|entries| - i) * ENTRY_ROOM == |entries| * ENTRY_ROOM;
    if i < |entries| {
      PrintedLength(entries[i]);
      assert (|entries| - i) * ENTRY_ROOM == (|entries| - i - 1) * ENTRY_ROOM + ENTRY_ROOM;
    }
  }

  lemma PrintAllStep(entries: seq<Entry>, i: nat)
    requires i < |entries|
    ensures PrintAll(entries[..i + 1]) == (if i == 0 then "" else PrintAll(entries[..i]) + ",") + Printed(entries[i])
  {
    hide Printed;
    assert entries[..i + 1][..i] == entries[..i];
  }

  /** `entries_to_json`: no buffer is too small, whatever the fields hold. */
  method EntriesToJson(entries: seq<Entry>) returns (json: string)
    requires forall e :: e in entries ==> ValidEntry(e)
    ensures json == ToJson(entries)
    ensures |json| < Capacity(|entries|)
  {
    hide Printed, ValidEntry, PrintAll, Capacity;
    var cap := Capacity(|entries|);
    RoomLeft(entries, 0);
    json := PutChar("", cap, '[');
    assert PrintAll(entries[..0]) == "" by { NothingPrinted(entries); }
    for i := 0 to |entries|
      invariant json == "[" + PrintAll(entries[..i])
    {
      RoomLeft(entries, i);
      PrintAllStep(entries, i);
      if i > 0 {
        json := PutChar(json, cap, ',');
      }
      json := AppendEntry(json, cap, entries[i]);
    }
    assert entries[..|entries|] == entries;
    RoomLeft(entries, |entries|);
    json := PutChar(json, cap, ']');
  }

  lemma NothingPrinted(entries: seq<Entry>)
    ensures PrintAll(entries[..0]) == ""
  {
  }

  // ----- The text itself -----

  predicate NeedsNoEscape(text: string) {
    '"' !in text && '\\' !in text
  }

  lemma {:induction false} PlainEscape(text: string)
    requires NeedsNoEscape(text)
    ensures Escape(text) == text
    decreases |text|
  {
    if text != "" {
      assert text[0] in text && forall c :: c in text[1..] ==> c in text;
      PlainEscape(text[1..]);
      assert text == [text[0]] + text[1..];
    }
  }

  lemma PlainField(key: string, value: string)
    requires NeedsNoEscape(value)
    ensures Field(key, value) == "\"" + key + "\":\"" + value + "\""
  {
    PlainEscape(value);
  }

  /** The JSON of an entry that needs no escapes. */
  lemma PlainPrinted(e: Entry)
    requires NeedsNoEscape(e.name) && NeedsNoEscape(e.username) && NeedsNoEscape(e.password) && NeedsNoEscape(e.notes)
    ensures Printed(e) == "{" + ("\"" + "name" + "\":\"" + e.name + "\"" + ","
                                 + ("\"" + "user" + "\":\"" + e.username + "\"") + ","
                                 + ("\"" + "pass" + "\":\"" + e.password + "\"") + ","
                                 + ("\"" + "notes" + "\":\"" + e.notes + "\"")) + "}"
  {
    hide Field;
    PlainField("name", e.name);
    PlainField("user", e.username);
    PlainField("pass", e.password);
    PlainField("notes", e.notes);
  }

  /** The JSON of none, one and two entries. */
  lemma PrintedLists(e: Entry, f: Entry)
    ensures ToJson([]) == "[]" && ToJson([e]) == "[" + Printed(e) + "]"
    ensures ToJson([e, f]) == "[" + (Printed(e) + "," + Printed(f)) + "]"
  {
    hide Printed;
    assert PrintAll([]) == "" && [e, f][..1] == [e] && [e][..0] == [];
    assert PrintAll([e]) == Printed(e);
  }
}
