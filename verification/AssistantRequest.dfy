/** The request body of the assistant: written twice, once to measure it and once
    into a buffer of exactly that size, and read back by RFC 8259.
    A C string is its contents up to the NUL, one `char` a byte. */
module AssistantRequest {
  import opened Text

  const SIZE_MAX := 0xFFFF_FFFF

  datatype Message = Message(role: Option<string>, content: Option<string>)

  // ----- What is written -----

  function HexDigit(n: nat): char
    requires n < 16
  {
    "0123456789abcdef"[n]
  }

  /** How one byte of a string is written. */
  function Escaped(c: char): string {
    if c == '"' then "\\\""
    else if c == '\\' then "\\\\"
    else if c as int == 8 then "\\b"
    else if c as int == 12 then "\\f"
    else if c == '\n' then "\\n"
    else if c == '\r' then "\\r"
    else if c == '\t' then "\\t"
    else if c as int < 0x20 then "\\u00" + [HexDigit(c as int / 16), HexDigit(c as int % 16)]
    else [c]
  }

  function EscapedAll(text: string): string {
    if text == "" then "" else Escaped(text[0]) + EscapedAll(text[1..])
  }

  function Quoted(text: string): string {
    "\"" + EscapedAll(text) + "\""
  }

  /** A literal with a JSON string behind it. */
  function Named(literal: string, value: string): string {
    literal + Quoted(value)
  }

  function MessageText(role: string, content: string): string {
    Named("{\"role\":", role) + Named(",\"content\":", content) + "}"
  }

  predicate Complete(m: Message) {
    m.role.Some? && m.content.Some?
  }

  function Given(text: Option<string>): string {
    match text
    case None => ""
    case Some(value) => value
  }

  function HistoryText(history: seq<Message>): string {
    if history == [] then ""
    else
      var n := |history| - 1;
      HistoryText(history[..n]) + (if n > 0 then "," else "")
          + MessageText(Given(history[n].role), Given(history[n].content))
  }

  function RequestHead(model: string, system: string): string {
    Named("{\"model\":", model) + Named(",\"max_tokens\":512,\"system\":", system) + ",\"messages\":["
  }

  function RequestTail(user: string): string {
    Named("{\"role\":\"user\",\"content\":", user) + "}]}"
  }

  function MessagesPart(history: seq<Message>, user: string): string {
    HistoryText(history) + (if history == [] then "" else ",") + RequestTail(user)
  }

  function RequestText(model: string, system: string, history: seq<Message>, user: string): string
  {
    RequestHead(model, system) + MessagesPart(history, user)
  }

  // ----- The writer -----

  /** `json_writer_t`. Without a buffer it only measures. */
  class JsonWriter {
    var buffer: array?<char>
    var capacity: nat
    var length: nat
    var valid: bool
    /** What has been written, or would have been. */
    ghost var text: string

    ghost predicate Valid()
      reads this, buffer
    {
      && |text| == length < SIZE_MAX
      && (buffer != null ==> capacity == buffer.Length && length <= buffer.Length && buffer[..length] == text)
    }

    constructor Measure()
      ensures Valid() && valid && text == "" && buffer == null
    {
      buffer, capacity, length, valid, text := null, 0, 0, true, "";
    }

    constructor Into(body: array<char>)
      ensures Valid() && valid && text == "" && buffer == body
    {
      buffer, capacity, length, valid, text := body, body.Length, 0, true, "";
    }

    /** Whether `n` more characters can be written, leaving room for the NUL. */
    predicate HasRoom(n: nat)
      reads this
    {
      valid && n + length + 1 <= SIZE_MAX && (buffer != null ==> length + n < capacity)
    }

    /** `writer_append_bytes` with `writer_reserve`. It writes all of `bytes` inside
        the buffer, or nothing, and then the writer stays invalid. */
    method Append(bytes: string) returns (ok: bool)
      requires Valid()
      modifies this, buffer
      ensures Valid() && buffer == old(buffer) && capacity == old(capacity)
      ensures ok == old(HasRoom(|bytes|)) && valid == ok
      ensures text == if ok then old(text) + bytes else old(text)
    {
      if !valid || |bytes| > SIZE_MAX - length - 1 {
        valid := false;
        return false;
      }
      if buffer != null && length + |bytes| >= capacity {
        valid := false;
        return false;
      }
      if buffer != null {
        forall i | 0 <= i < |bytes| {
          buffer[length + i] := bytes[i];
        }
      }
      length := length + |bytes|;
      text := text + bytes;
      return true;
    }

    /** `writer_append_json_string`. */
    method AppendJsonString(value: Option<string>) returns (ok: bool)
      requires Valid()
      modifies this, buffer
      ensures Valid() && buffer == old(buffer) && capacity == old(capacity)
      ensures ok == (value.Some? && old(HasRoom(|Quoted(value.value)|)))
      ensures ok ==> valid && text == old(text) + Quoted(value.value)
    {
      hide EscapedAll, Escaped;
      if value.None? {
        return false;
      }
      ok := Append("\"");
      if !ok { return; }
      var s := value.value;
      assert EscapedAll(s[..0]) == "" by { EscapedNothing(); }
      for i := 0 to |s|
        invariant Valid() && valid && buffer == old(buffer)
        invariant text == old(text) + ("\"" + EscapedAll(s[..i]))
        invariant old(valid) && capacity == old(capacity)
      {
        assert s[..i + 1] == s[..i] + [s[i]];
        EscapedAppend(s[..i], s[i]);
        EscapedPrefix(s, i + 1);
        ok := Append(Escaped(s[i]));
        if !ok { return; }
      }
      assert s[..|s|] == s;
      ok := Append("\"");
    }

    /** A literal with a JSON string behind it. */
    method AppendNamed(prefix: string, value: string) returns (ok: bool)
      requires Valid()
      modifies this, buffer
      ensures Valid() && buffer == old(buffer) && capacity == old(capacity)
      ensures ok == old(HasRoom(|Named(prefix, value)|))
      ensures ok ==> valid && text == old(text) + Named(prefix, value)
    {
      hide Quoted;
      ok := Append(prefix);
      if !ok { return; }
      ok := AppendJsonString(Some(value));
    }

    /** The part of `write_request` before the messages. */
    method AppendHead(model: string, system: string) returns (ok: bool)
      requires Valid()
      modifies this, buffer
      ensures Valid() && buffer == old(buffer) && capacity == old(capacity)
      ensures ok == old(HasRoom(|RequestHead(model, system)|))
      ensures ok ==> valid && text == old(text) + RequestHead(model, system)
    {
      hide Named;
      ok := AppendNamed("{\"model\":", model);
      if !ok { return; }
      ok := AppendNamed(",\"max_tokens\":512,\"system\":", system);
      if !ok { return; }
      ok := Append(",\"messages\":[");
    }

    method AppendMessage(m: Message) returns (ok: bool)
      requires Valid()
      modifies this, buffer
      ensures Valid() && buffer == old(buffer) && capacity == old(capacity)
      ensures ok == (Complete(m) && old(HasRoom(|MessageText(Given(m.role), Given(m.content))|)))
      ensures ok ==> valid && text == old(text) + MessageText(Given(m.role), Given(m.content))
    {
      hide Named;
      if m.role.None? || m.content.None? {
        return false;
      }
      ok := AppendNamed("{\"role\":", m.role.value);
      if !ok { return; }
      ok := AppendNamed(",\"content\":", m.content.value);
      if !ok { return; }
      ok := Append("}");
    }

    method AppendHistory(history: seq<Message>) returns (ok: bool)
      requires Valid() && valid
      modifies this, buffer
      ensures Valid() && buffer == old(buffer) && capacity == old(capacity)
      ensures ok == ((forall m :: m in history ==> Complete(m))
              && (history == [] || old(HasRoom(|HistoryText(history)|))))
      ensures ok ==> valid && text == old(text) + HistoryText(history)
    {
      hide MessageText, Given, HistoryText, Complete;
      assert HistoryText(history[..0]) == "" by { NoHistory(history); }
      for index := 0 to |history|
        invariant Valid() && valid && buffer == old(buffer) && capacity == old(capacity)
        invariant text == old(text) + HistoryText(history[..index])
        invariant forall m :: m in history[..index] ==> Complete(m)
        invariant index > 0 ==> old(HasRoom(|HistoryText(history[..index])|))
      {
        HistoryStep(history, index);
        HistoryPrefix(history, index + 1);
        assert forall m :: m in history[..index + 1] ==> m in history[..index] || m == history[index];
        if index > 0 {
          ok := Append(",");
          if !ok { return; }
        }
        ok := AppendMessage(history[index]);
        if !ok { return; }
      }
      assert history[..|history|] == history;
      ok := true;
    }

    method AppendTail(user: string) returns (ok: bool)
      requires Valid()
      modifies this, buffer
      ensures Valid() && buffer == old(buffer) && capacity == old(capacity)
      ensures ok == old(HasRoom(|RequestTail(user)|))
      ensures ok ==> valid && text == old(text) + RequestTail(user)
    {
      hide Named;
      ok := AppendNamed("{\"role\":\"user\",\"content\":", user);
      if !ok { return; }
      ok := Append("}]}");
    }

    /** The part of `write_request` from the messages on. */
    method AppendMessages(history: seq<Message>, user: string) returns (ok: bool)
      requires Valid() && valid
      modifies this, buffer
      ensures Valid() && buffer == old(buffer) && capacity == old(capacity)
      ensures ok == ((forall m :: m in history ==> Complete(m)) && old(HasRoom(|MessagesPart(history, user)|)))
      ensures ok ==> valid && text == old(text) + MessagesPart(history, user)
    {
      hide RequestTail, HistoryText, Complete;
      ok := AppendHistory(history);
      if !ok { return; }
      if |history| > 0 {
        ok := Append(",");
        if !ok { return; }
      }
      ok := AppendTail(user);
    }

    /** `write_request`. */
    method WriteRequest(model: Option<string>, system: Option<string>, history: Option<seq<Message>>, historyCount: nat,
                        user: Option<string>)
      returns (ok: bool)
      requires Valid() && valid && text == ""
      requires history.Some? ==> historyCount <= |history.value|
      modifies this, buffer
      ensures Valid() && buffer == old(buffer)
      ensures ok == (Writable(model, system, history, historyCount, user)
                     && old(HasRoom(|RequestText(model.value, system.value, Used(history, historyCount), user.value)|)))
      ensures ok ==> valid && text == RequestText(model.value, system.value, Used(history, historyCount), user.value)
      ensures ok ==> Sends(text, model, system, history, historyCount, user)
    {
      hide RequestHead, MessagesPart, Sends;
      WritableMeans(model, system, history, historyCount, user);
      if model.None? || system.None? || user.None? || (historyCount > 0 && history.None?) {
        return false;
      }
      ok := AppendHead(model.value, system.value);
      if !ok { return; }
      ok := AppendMessages(Used(history, historyCount), user.value);
      if ok {
        SentIsReadBack(model.value, system.value, history, historyCount, user.value);
      }
    }
  }

  /** The part of the history that the caller asked to send. */
  function Used(history: Option<seq<Message>>, historyCount: nat): (used: seq<Message>)
    requires history.Some? ==> historyCount <= |history.value|
    ensures history.Some? ==> |used| == historyCount
  {
    match history
    case None => []
    case Some(messages) => messages[..historyCount]
  }

  /** Nothing that is needed is missing. */
  predicate Writable(model: Option<string>, system: Option<string>, history: Option<seq<Message>>, historyCount: nat,
                     user: Option<string>)
    requires history.Some? ==> historyCount <= |history.value|
  {
    && model.Some? && system.Some? && user.Some?
    && (historyCount > 0 ==> history.Some?)
    && forall m :: m in Used(history, historyCount) ==> Complete(m)
  }

  lemma WritableMeans(model: Option<string>, system: Option<string>, history: Option<seq<Message>>, historyCount: nat,
                      user: Option<string>)
    requires history.Some? ==> historyCount <= |history.value|
    ensures Writable(model, system, history, historyCount, user) <==>
              && model.Some? && system.Some? && user.Some? && (historyCount > 0 ==> history.Some?)
              && forall i :: 0 <= i < historyCount ==> Complete(history.value[i])
  {
    if historyCount > 0 && history.Some? {
      var used := Used(history, historyCount);
      assert forall i :: 0 <= i < historyCount ==> used[i] == history.value[i] && used[i] in used;
    }
  }

  /** The text decodes to exactly what the caller asked to send: the model, the system
      prompt, the first `historyCount` messages from the first on, and the user's message. */
  ghost predicate Sends(text: string, model: Option<string>, system: Option<string>, history: Option<seq<Message>>,
                        historyCount: nat, user: Option<string>)
    requires history.Some? ==> historyCount <= |history.value|
  {
    && model.Some? && system.Some? && user.Some? && (historyCount > 0 ==> history.Some?)
    && var read := ReadRequest(text);
       && read.Some? && read.value.model == model.value && read.value.system == system.value
       && |read.value.messages| == historyCount + 1
       && read.value.messages[historyCount] == ("user", user.value)
       && forall i :: 0 <= i < historyCount ==>
            && Some(read.value.messages[i].0) == history.value[i].role
            && Some(read.value.messages[i].1) == history.value[i].content
  }

  /** A request decodes to what the caller asked to send. */
  lemma SentIsReadBack(model: string, system: string, history: Option<seq<Message>>, historyCount: nat, user: string)
    requires history.Some? ==> historyCount <= |history.value|
    requires historyCount > 0 ==> history.Some?
    requires forall i :: 0 <= i < historyCount ==> Complete(history.value[i])
    ensures Sends(RequestText(model, system, Used(history, historyCount), user),
                  Some(model), Some(system), history, historyCount, Some(user))
  {
    hide RequestText, ReadRequest;
    var used := Used(history, historyCount);
    RequestIsReadBack(model, system, used, user);
    assert forall i :: 0 <= i < historyCount ==> used[i] == history.value[i];
  }

  function RequestLength(model: Option<string>, system: Option<string>, history: Option<seq<Message>>,
                         historyCount: nat, user: Option<string>): nat
    requires history.Some? ==> historyCount <= |history.value|
    requires Writable(model, system, history, historyCount, user)
  {
    |RequestText(model.value, system.value, Used(history, historyCount), user.value)|
  }

  lemma NoHistory(history: seq<Message>)
    ensures HistoryText(history[..0]) == ""
  {
  }

  lemma HistoryStep(history: seq<Message>, n: nat)
    requires n < |history|
    ensures HistoryText(history[..n + 1]) ==
            HistoryText(history[..n]) + (if n > 0 then "," else "")
                + MessageText(Given(history[n].role), Given(history[n].content))
  {
    hide MessageText, Given;
    assert history[..n + 1][..n] == history[..n];
  }

  lemma {:induction false} HistoryPrefix(history: seq<Message>, n: nat)
    requires n <= |history|
    ensures |HistoryText(history[..n])| <= |HistoryText(history)|
    decreases |history| - n
  {
    hide MessageText, Given;
    if n < |history| {
      assert history[..n + 1][..n] == history[..n];
      HistoryPrefix(history, n + 1);
    } else {
      assert history[..n] == history;
    }
  }

  /** `assistant_request_build`; `memory` says whether `malloc` succeeds. The second
      pass never runs out of the room that the first one measured. */
  method Build(model: Option<string>, system: Option<string>, history: Option<seq<Message>>, historyCount: nat,
               user: Option<string>,
               memory: bool)
    returns (body: array?<char>, length: nat)
    requires history.Some? ==> historyCount <= |history.value|
    ensures body != null <==> memory && Writable(model, system, history, historyCount, user)
                              && RequestLength(model, system, history, historyCount, user) < SIZE_MAX
    ensures body != null ==> fresh(body) && length == body.Length - 1 && body[length] == '\0'
                             && body[..length]
                                == RequestText(model.value, system.value, Used(history, historyCount), user.value)
    // nothing that is asked for is missing, and what is sent decodes to exactly that
    ensures body != null ==>
              && model.Some? && system.Some? && user.Some?
              && (historyCount > 0 ==> history.Some?)
              && forall i :: 0 <= i < historyCount ==> history.value[i].role.Some? && history.value[i].content.Some?
    ensures body != null ==> Sends(body[..length], model, system, history, historyCount, user)
    ensures body == null && memory && model.Some? && system.Some? && user.Some? && (historyCount > 0 ==> history.Some?)
            && (forall i :: 0 <= i < historyCount ==> Complete(history.value[i])) ==>
              RequestLength(model, system, history, historyCount, user) >= SIZE_MAX
    ensures body == null ==> length == 0
  {
    hide RequestText, Writable, Sends;
    WritableMeans(model, system, history, historyCount, user);
    length := 0;
    var measure := new JsonWriter.Measure();
    var ok := measure.WriteRequest(model, system, history, historyCount, user);
    if !ok {
      return null, 0;
    }
    if !memory {
      return null, 0;
    }
    var buffer := new char[measure.length + 1];
    var writer := new JsonWriter.Into(buffer);
    ok := writer.WriteRequest(model, system, history, historyCount, user);
    assert ok && writer.length == measure.length;
    buffer[writer.length] := '\0';
    return buffer, writer.length;
  }

  lemma EscapedNothing()
    ensures EscapedAll("") == ""
  {
  }

  /** The escapes of section 7 of RFC 8259 that are used, and that nothing else is escaped. */
  lemma EscapesUsed(c: char)
    ensures Escaped('"') == "\\\"" && Escaped('\\') == "\\\\"
    ensures Escaped('\n') == "\\n" && Escaped('\r') == "\\r" && Escaped('\t') == "\\t"
    ensures Escaped(8 as char) == "\\b" && Escaped(12 as char) == "\\f"
    ensures Escaped(1 as char) == "\\u0001" && Escaped(31 as char) == "\\u001f"
    ensures c as int >= 0x20 && c != '"' && c != '\\' ==> Escaped(c) == [c]
  {
  }

  lemma {:induction false} EscapedAppend(text: string, c: char)
    ensures EscapedAll(text + [c]) == EscapedAll(text) + Escaped(c)
  {
    hide Escaped;
    if text == "" {
      assert text + [c] == [c];
    } else {
      EscapedAppend(text[1..], c);
      assert (text + [c])[1..] == text[1..] + [c];
    }
  }

  lemma {:induction false} EscapedPrefix(text: string, n: nat)
    requires n <= |text|
    ensures |EscapedAll(text[..n])| <= |EscapedAll(text)|
  {
    if n > 0 {
      EscapedPrefix(text[1..], n - 1);
      assert text[..n][1..] == text[1..][..n - 1];
    }
  }

  // ----- Reading it back, section 7 of RFC 8259 -----

  function HexValue(c: char): Option<nat> {
    if '0' <= c <= '9' then Some(c as int - '0' as int)
    else if 'a' <= c <= 'f' then Some(c as int - 'a' as int + 10)
    else if 'A' <= c <= 'F' then Some(c as int - 'A' as int + 10)
    else None
  }

  /** The character after `\u`, when it is not a surrogate. */
  function FourHex(text: string): Option<char> {
    if |text| < 4 || exists i :: 0 <= i < 4 && HexValue(text[i]).None? then None
    else
      var n := HexValue(text[0]).value * 0x1000 + HexValue(text[1]).value * 0x100 + HexValue(text[2]).value * 0x10
          + HexValue(text[3]).value;
      if n < 0xD800 then Some(n as char) else None
  }

  /** The character that an escape stands for, apart from `\u`. */
  function Unescaped(c: char): Option<char> {
    if c == '"' || c == '\\' || c == '/' then Some(c)
    else if c == 'b' then Some(8 as char)
    else if c == 'f' then Some(12 as char)
    else if c == 'n' then Some('\n')
    else if c == 'r' then Some('\r')
    else if c == 't' then Some('\t')
    else None
  }

  /** The first character of a string body, and what follows it. */
  function ReadCharacter(text: string): Option<(char, string)> {
    if text == "" || text[0] == '"' || text[0] as int < 0x20 then None
    else if text[0] != '\\' then Some((text[0], text[1..]))
    else if |text| == 1 then None
    else if text[1] == 'u' then
      match FourHex(text[2..])
      case None => None
      case Some(c) => Some((c, text[6..]))
    else
      match Unescaped(text[1])
      case None => None
      case Some(c) => Some((c, text[2..]))
  }

  /** A string body up to its closing quote, decoded, and what follows the quote. */
  function ReadBody(text: string): (r: Option<(string, string)>)
    ensures r.Some? ==> |r.value.1| < |text|
    decreases |text|
  {
    if text != "" && text[0] == '"' then Some(("", text[1..]))
    else
      match ReadCharacter(text)
      case None => None
      case Some(read) =>
        match ReadBody(read.1)
        case None => None
        case Some(more) => Some(([read.0] + more.0, more.1))
  }

  function ReadString(text: string): Option<(string, string)> {
    if text != "" && text[0] == '"' then ReadBody(text[1..]) else None
  }

  function Expect(text: string, literal: string): Option<string> {
    if literal <= text then Some(text[|literal|..]) else None
  }

  /** A literal, then a string. */
  function ReadNamed(text: string, literal: string): (r: Option<(string, string)>)
    ensures r.Some? ==> |r.value.1| < |text|
  {
    match Expect(text, literal)
    case None => None
    case Some(rest) => ReadString(rest)
  }

  datatype Request = Request(model: string, system: string, messages: seq<(string, string)>)

  function ReadMessages(text: string): Option<seq<(string, string)>>
    decreases |text|
  {
    match ReadNamed(text, "{\"role\":")
    case None => None
    case Some(role) =>
      match ReadNamed(role.1, ",\"content\":")
      case None => None
      case Some(content) =>
        if content.1 == "}]}" then Some([(role.0, content.0)])
        else if "}," <= content.1 then
          match ReadMessages(content.1[2..])
          case None => None
          case Some(more) => Some([(role.0, content.0)] + more)
        else None
  }

  function ReadRequest(text: string): Option<Request> {
    match ReadNamed(text, "{\"model\":")
    case None => None
    case Some(model) =>
      match ReadNamed(model.1, ",\"max_tokens\":512,\"system\":")
      case None => None
      case Some(system) =>
        match Expect(system.1, ",\"messages\":[")
        case None => None
        case Some(rest) =>
          match ReadMessages(rest)
          case None => None
          case Some(messages) => Some(Request(model.0, system.0, messages))
  }

  lemma HexRoundTrip(n: nat)
    requires n < 16
    ensures HexValue(HexDigit(n)) == Some(n)
  {
  }

  /** Whatever byte was escaped, it is read back. */
  lemma CharacterIsReadBack(c: char, rest: string)
    ensures ReadCharacter(Escaped(c) + rest) == Some((c, rest))
    ensures Escaped(c)[0] != '"'
  {
    var text := Escaped(c) + rest;
    if c as int < 0x20 && c as int != 8 && c as int != 12 && c != '\n' && c != '\r' && c != '\t' {
      HexRoundTrip(c as int / 16);
      HexRoundTrip(c as int % 16);
      assert text[2..][..4] == ['0', '0', HexDigit(c as int / 16), HexDigit(c as int % 16)];
      assert HexValue('0') == Some(0);
      assert text[6..] == rest;
    } else {
      assert |Escaped(c)| == 1 ==> text[1..] == rest;
      assert |Escaped(c)| == 2 ==> text[2..] == rest;
    }
  }

  lemma {:induction false} BodyIsReadBack(value: string, rest: string)
    ensures ReadBody(EscapedAll(value) + "\"" + rest) == Some((value, rest))
  {
    hide Escaped, ReadCharacter;
    var text := EscapedAll(value) + "\"" + rest;
    if value == "" {
      assert text[1..] == rest;
    } else {
      var tail := EscapedAll(value[1..]) + "\"" + rest;
      assert text == Escaped(value[0]) + tail;
      CharacterIsReadBack(value[0], tail);
      assert Escaped(value[0]) != "" by { SomethingEscaped(value[0]); }
      BodyIsReadBack(value[1..], rest);
      assert [value[0]] + value[1..] == value;
    }
  }

  lemma SomethingEscaped(c: char)
    ensures Escaped(c) != ""
  {
  }

  lemma NamedIsReadBack(literal: string, value: string, rest: string)
    ensures ReadNamed(literal + Quoted(value) + rest, literal) == Some((value, rest))
  {
    hide EscapedAll, ReadBody;
    var text := literal + Quoted(value) + rest;
    assert text[|literal|..] == Quoted(value) + rest;
    assert (Quoted(value) + rest)[1..] == EscapedAll(value) + "\"" + rest;
    BodyIsReadBack(value, rest);
  }

  /** Messages in the order in which they are read. */
  function MessagesText(messages: seq<(string, string)>): string {
    if messages == [] then ""
    else MessageText(messages[0].0, messages[0].1) + (if |messages| == 1 then "" else "," + MessagesText(messages[1..]))
  }

  function Pairs(history: seq<Message>): (pairs: seq<(string, string)>)
    ensures |pairs| == |history|
  {
    seq(|history|, i requires 0 <= i < |history| => (Given(history[i].role), Given(history[i].content)))
  }

  lemma {:induction false} MessagesTextAppend(messages: seq<(string, string)>, last: (string, string))
    ensures MessagesText(messages + [last]) == MessagesText(messages) + (if messages == [] then "" else ",")
            + MessageText(last.0, last.1)
  {
    hide MessageText;
    if messages == [] {
      assert messages + [last] == [last];
    } else {
      assert (messages + [last])[1..] == messages[1..] + [last];
      MessagesTextAppend(messages[1..], last);
    }
  }

  lemma {:induction false} HistoryIsMessages(history: seq<Message>)
    ensures HistoryText(history) == MessagesText(Pairs(history))
  {
    hide MessageText;
    if history != [] {
      var n := |history| - 1;
      HistoryIsMessages(history[..n]);
      MessagesTextAppend(Pairs(history[..n]), (Given(history[n].role), Given(history[n].content)));
      assert Pairs(history) == Pairs(history[..n]) + [(Given(history[n].role), Given(history[n].content))];
    }
  }

  /** What follows the content of the first message. */
  function AfterFirst(messages: seq<(string, string)>): string
    requires messages != []
  {
    if |messages| == 1 then "}]}" else "}," + MessagesText(messages[1..]) + "]}"
  }

  lemma {:induction false} MessagesLayout(messages: seq<(string, string)>)
    requires messages != []
    ensures MessagesText(messages) + "]}" ==
            "{\"role\":" + Quoted(messages[0].0) + (",\"content\":" + Quoted(messages[0].1) + AfterFirst(messages))
  {
    hide Quoted;
    var tail := if |messages| == 1 then "" else "," + MessagesText(messages[1..]);
    assert AfterFirst(messages) == "}" + tail + "]}" by {
      if |messages| == 1 {
        assert "}" + "" + "]}" == "}]}";
      } else {
        assert "}" + ("," + MessagesText(messages[1..])) == "}," + MessagesText(messages[1..]);
      }
    }
  }

  lemma MoreAfterFirst(messages: seq<(string, string)>)
    requires |messages| > 1
    ensures AfterFirst(messages)[2..] == MessagesText(messages[1..]) + "]}"
    ensures AfterFirst(messages)[1] == ',' && "}," <= AfterFirst(messages)
  {
    hide MessagesText;
  }

  lemma {:induction false} MessagesAreReadBack(messages: seq<(string, string)>)
    requires messages != []
    ensures ReadMessages(MessagesText(messages) + "]}") == Some(messages)
  {
    hide Quoted, ReadNamed, MessagesText, AfterFirst;
    var after := AfterFirst(messages);
    MessagesLayout(messages);
    NamedIsReadBack("{\"role\":", messages[0].0, ",\"content\":" + Quoted(messages[0].1) + after);
    NamedIsReadBack(",\"content\":", messages[0].1, after);
    assert (messages[0].0, messages[0].1) == messages[0];
    if |messages| == 1 {
      assert after == "}]}" by { LastAfterFirst(messages); }
      assert [messages[0]] == messages;
    } else {
      MoreAfterFirst(messages);
      assert after != "}]}" by { assert after[1] == ','; }
      MessagesAreReadBack(messages[1..]);
      assert [messages[0]] + messages[1..] == messages;
    }
  }

  lemma LastAfterFirst(messages: seq<(string, string)>)
    requires |messages| == 1
    ensures AfterFirst(messages) == "}]}"
  {
  }

  lemma UserRole()
    ensures Quoted("user") == "\"user\""
  {
    assert EscapedAll("") == "" && EscapedAll("r") == "r";
    assert "er"[1..] == "r" && EscapedAll("er") == "er";
    assert "ser"[1..] == "er" && EscapedAll("ser") == "ser";
    assert "user"[1..] == "ser" && EscapedAll("user") == "user";
  }

  lemma RequestLayout(model: string, system: string, history: seq<Message>, user: string)
    ensures RequestText(model, system, history, user) ==
            "{\"model\":" + Quoted(model) + (",\"max_tokens\":512,\"system\":" + Quoted(system) +
            (",\"messages\":[" + (MessagesText(Pairs(history) + [("user", user)]) + "]}")))
  {
    hide Quoted, HistoryText, MessagesText;
    HistoryIsMessages(history);
    MessagesTextAppend(Pairs(history), ("user", user));
    UserRole();
    assert RequestTail(user) == MessageText("user", user) + "]}" by {
      assert "{\"role\":" + "\"user\"" + ",\"content\":" == "{\"role\":\"user\",\"content\":";
    }
  }

  /** The body decodes to the model, the system prompt, the history in its order and
      the user's message, whatever bytes they hold. */
  lemma RequestIsReadBack(model: string, system: string, history: seq<Message>, user: string)
    ensures ReadRequest(RequestText(model, system, history, user))
            == Some(Request(model, system, Pairs(history) + [("user", user)]))
  {
    hide Quoted, ReadNamed, ReadMessages, RequestText, MessagesText;
    RequestLayout(model, system, history, user);
    var messages := Pairs(history) + [("user", user)];
    var afterSystem := ",\"messages\":[" + (MessagesText(messages) + "]}");
    var afterModel := ",\"max_tokens\":512,\"system\":" + Quoted(system) + afterSystem;
    NamedIsReadBack("{\"model\":", model, afterModel);
    NamedIsReadBack(",\"max_tokens\":512,\"system\":", system, afterSystem);
    assert afterSystem[|",\"messages\":["|..] == MessagesText(messages) + "]}";
    MessagesAreReadBack(messages);
  }
}
