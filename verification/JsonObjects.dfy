/** The iterator over the top-level objects of a JSON array that Recovery reads its
    catalog with, and the JSON texts (RFC 8259) on which it is exact. */
module JsonObjects {
  import opened Text

  // ----- The scanner -----

  datatype State = State(depth: nat, inString: bool, escape: bool)

  const OUTSIDE := State(0, false, false)

  /** The closure that `next` hands to `find`: the state after `c`. */
  function Step(s: State, c: char): State
    requires c == '}' && !s.inString && !s.escape ==> s.depth > 0
  {
    if s.escape then s.(escape := false)
    else if c == '\\' && s.inString then s.(escape := true)
    else if c == '"' then s.(inString := !s.inString)
    else if c == '{' && !s.inString then s.(depth := s.depth + 1)
    else if c == '}' && !s.inString then s.(depth := s.depth - 1)
    else s
  }

  /** Whether `c` closes the object that the scan began with. */
  predicate Closes(s: State, c: char) {
    !s.escape && !s.inString && c == '}' && s.depth == 1
  }

  /** Inside an object the nesting depth is positive. */
  predicate Inside(s: State) {
    s.depth > 0 && (s.escape ==> s.inString)
  }

  /** How far the scan goes on in `text` until it has read the closing brace. */
  function ScanLength(text: string, s: State): Option<nat>
    requires Inside(s)
  {
    if text == "" then None
    else if Closes(s, text[0]) then Some(1)
    else Further(1, ScanLength(text[1..], Step(s, text[0])))
  }

  /** The length of the object that `text` begins with. */
  function ObjectLength(text: string): Option<nat>
    requires text != "" && text[0] == '{'
  {
    Further(1, ScanLength(text[1..], State(1, false, false)))
  }

  lemma {:induction false} ScanLengthInText(text: string, s: State)
    requires Inside(s)
    ensures ScanLength(text, s).Some? ==>
              0 < ScanLength(text, s).value <= |text| && text[ScanLength(text, s).value - 1] == '}'
  {
    if text != "" && !Closes(s, text[0]) {
      ScanLengthInText(text[1..], Step(s, text[0]));
    }
  }

  // ----- All objects of a text -----

  /** What repeated calls of `next` yield. */
  function Objects(text: string): seq<string>
    decreases |text|
  {
    match FindChar(text, '{')
    case None => []
    case Some(start) =>
      match ObjectLength(text[start..])
      case None => []
      case Some(length) =>
        ScanLengthInText(text[start..][1..], State(1, false, false));
        [text[start..start + length]] + Objects(text[start + length..])
  }

  lemma {:induction false} ObjectsStep(text: string, start: nat, length: nat)
    requires FindChar(text, '{') == Some(start) && ObjectLength(text[start..]) == Some(length)
    ensures 1 < length <= |text| - start
    ensures Objects(text) == [text[start..start + length]] + Objects(text[start + length..])
  {
    hide FindChar, ScanLength;
    ScanLengthInText(text[start..][1..], State(1, false, false));
  }

  lemma ObjectsEnd(text: string)
    requires FindChar(text, '{').None? || ObjectLength(text[FindChar(text, '{').value..]).None?
    ensures Objects(text) == []
  {
  }

  /** The scan of `next`: the length of the object that `src` begins with. The depth
      never falls below zero, which the type of `depth` demands at every step. */
  method MeasureObject(src: string) returns (length: Option<nat>)
    requires src != "" && src[0] == '{'
    ensures length == ObjectLength(src)
  {
    var s := OUTSIDE;
    for i := 0 to |src|
      invariant if i == 0 then s == OUTSIDE else Inside(s)
      invariant i > 0 ==> ObjectLength(src) == Further(i, ScanLength(src[i..], s))
    {
      if i > 0 && Closes(s, src[i]) {
        return Some(i + 1);
      }
      assert src[i..][1..] == src[i + 1..];
      s := Step(s, src[i]);
    }
    return None;
  }

  class JsonObjects {
    var src: string

    constructor (json: string)
      ensures src == json
    {
      src := json;
    }

    /** `next`. */
    method Next() returns (r: Option<string>)
      modifies this
      ensures match FindChar(old(src), '{')
              case None => r.None? && src == old(src)
              case Some(start) =>
                match ObjectLength(old(src)[start..])
                case None => r.None? && src == old(src)[start..]
                case Some(length) =>
                  && 1 < length <= |old(src)| - start
                  && r == Some(old(src)[start..start + length])
                  && src == old(src)[start + length..]
      ensures Objects(old(src)) == if r.Some? then [r.value] + Objects(src) else []
      ensures r.Some? ==> |src| < |old(src)|
    {
      hide Objects, ScanLength, FindChar, ObjectLength;
      var start := FindChar(src, '{');
      if start.None? {
        ObjectsEnd(src);
        return None;
      }
      ghost var text := src;
      src := src[start.value..];
      var length := MeasureObject(src);
      if length.None? {
        ObjectsEnd(text);
        return None;
      }
      ObjectsStep(text, start.value, length.value);
      r := Some(src[..length.value]);
      assert r.value == text[start.value..start.value + length.value];
      src := src[length.value..];
    }
  }

  /** A `for` loop over the iterator. */
  method Collect(json: string) returns (objects: seq<string>)
    ensures objects == Objects(json)
  {
    hide Objects, FindChar, ScanLength, ObjectLength;
    var iter := new JsonObjects(json);
    objects := [];
    var next := iter.Next();
    while next.Some?
      invariant Objects(json) == objects + (if next.Some? then [next.value] + Objects(iter.src) else [])
      decreases next.Some?, |iter.src|
    {
      objects := objects + [next.value];
      next := iter.Next();
    }
  }

  /** Between the objects: what is skipped before each of them, and after the last. */
  function Gaps(text: string): (gaps: seq<string>)
    ensures |gaps| == |Objects(text)| + 1
    decreases |text|
  {
    hide Objects, FindChar, ObjectLength;
    match FindChar(text, '{')
    case None =>
      ObjectsEnd(text);
      [text]
    case Some(start) =>
      match ObjectLength(text[start..])
      case None =>
        ObjectsEnd(text);
        [text]
      case Some(length) =>
        ObjectsStep(text, start, length);
        [text[..start]] + Gaps(text[start + length..])
  }

  function Interleaved(gaps: seq<string>, objects: seq<string>): string
    requires |gaps| == |objects| + 1
    decreases |objects|
  {
    if objects == [] then gaps[0] else gaps[0] + objects[0] + Interleaved(gaps[1..], objects[1..])
  }

  /** On any text at all the iterator yields disjoint pieces in their order, each
      from an opening to a closing brace, and skips no opening brace before one. */
  lemma {:induction false} PiecesInOrder(text: string)
    ensures Interleaved(Gaps(text), Objects(text)) == text
    ensures forall i :: 0 <= i < |Objects(text)| ==> '{' !in Gaps(text)[i]
    ensures forall piece :: piece in Objects(text) ==> |piece| > 1 && piece[0] == '{' && piece[|piece| - 1] == '}'
    decreases |text|
  {
    hide ScanLength, FindChar, Objects, Gaps, ObjectLength;
    var start := FindChar(text, '{');
    if start.Some? && ObjectLength(text[start.value..]).Some? {
      var length := ObjectLength(text[start.value..]).value;
      ObjectsStep(text, start.value, length);
      GapsStep(text, start.value, length);
      ObjectEnds(text[start.value..], length);
      var end := start.value + length;
      PiecesInOrder(text[end..]);
      assert Objects(text)[1..] == Objects(text[end..]) && Gaps(text)[1..] == Gaps(text[end..]);
      assert text == text[..start.value] + text[start.value..end] + text[end..];
    } else {
      ObjectsEnd(text);
      GapsEnd(text);
    }
  }

  lemma GapsStep(text: string, start: nat, length: nat)
    requires FindChar(text, '{') == Some(start) && ObjectLength(text[start..]) == Some(length)
    ensures start + length <= |text| && Gaps(text) == [text[..start]] + Gaps(text[start + length..])
  {
    hide Objects, FindChar, ObjectLength;
    ObjectsStep(text, start, length);
  }

  lemma GapsEnd(text: string)
    requires FindChar(text, '{').None? || ObjectLength(text[FindChar(text, '{').value..]).None?
    ensures Gaps(text) == [text]
  {
    hide Objects, FindChar, ObjectLength;
  }

  lemma ObjectEnds(text: string, length: nat)
    requires text != "" && text[0] == '{' && ObjectLength(text) == Some(length)
    ensures 1 < length <= |text| && text[length - 1] == '}'
  {
    hide ScanLength;
    ScanLengthInText(text[1..], State(1, false, false));
  }

  // ----- JSON texts -----

  /** A JSON value as it is written, white space and all. The body of a string and
      the text of a number or a literal name are kept as they stand. */
  datatype Json =
    | Token(text: string)
    | Str(body: string)
    | Array(blank: string, elements: seq<Element>)
    | Object(blank: string, members: seq<Member>)

  datatype Element = Element(before: string, value: Json, after: string)

  datatype Member = Member(before: string, name: string, afterName: string, beforeValue: string, value: Json,
      after: string)

  predicate Blank(text: string) {
    forall c :: c in text ==> c == ' ' || c == '\t' || c == '\n' || c == '\r'
  }

  /** A string body: no bare quote, and every backslash escapes the character after it. */
  predicate WellEscaped(body: string) {
    body == ""
    || (body[0] == '\\' && |body| > 1 && WellEscaped(body[2..]))
    || (body[0] != '\\' && body[0] != '"' && WellEscaped(body[1..]))
  }

  predicate PlainToken(text: string) {
    forall c :: c in text ==> c != '"' && c != '{' && c != '}'
  }

  predicate WellFormed(json: Json)
    decreases json, 0
  {
    match json
    case Token(text) => PlainToken(text)
    case Str(body) => WellEscaped(body)
    case Array(blank, elements) => Blank(blank) && WellFormedElements(elements)
    case Object(blank, members) => Blank(blank) && WellFormedMembers(members)
  }

  predicate WellFormedElements(elements: seq<Element>)
    decreases elements, 1
  {
    elements == [] ||
    (Blank(elements[0].before) && WellFormed(elements[0].value) && Blank(elements[0].after)
        && WellFormedElements(elements[1..]))
  }

  predicate WellFormedMembers(members: seq<Member>)
    decreases members, 1
  {
    members == [] ||
    (&& Blank(members[0].before) && WellEscaped(members[0].name) && Blank(members[0].afterName)
     && Blank(members[0].beforeValue) && WellFormed(members[0].value) && Blank(members[0].after)
     && WellFormedMembers(members[1..]))
  }

  function Quoted(body: string): string {
    "\"" + body + "\""
  }

  function Print(json: Json): string
    decreases json, 0
  {
    match json
    case Token(text) => text
    case Str(body) => Quoted(body)
    case Array(blank, elements) => "[" + (if elements == [] then blank else PrintElements(elements)) + "]"
    case Object(blank, members) => "{" + (if members == [] then blank else PrintMembers(members)) + "}"
  }

  function PrintElement(element: Element): string
    decreases element, 1
  {
    element.before + Print(element.value) + element.after
  }

  function PrintElements(elements: seq<Element>): string
    decreases elements, 2
  {
    if elements == [] then ""
    else if |elements| == 1 then PrintElement(elements[0])
    else PrintElement(elements[0]) + "," + PrintElements(elements[1..])
  }

  function PrintMember(member: Member): string
    decreases member, 1
  {
    member.before + Quoted(member.name) + member.afterName + ":" + member.beforeValue + Print(member.value)
        + member.after
  }

  function PrintMembers(members: seq<Member>): string
    decreases members, 2
  {
    if members == [] then ""
    else if |members| == 1 then PrintMember(members[0])
    else PrintMember(members[0]) + "," + PrintMembers(members[1..])
  }

  // ----- The scan reads over every JSON value -----

  function At(depth: nat): State {
    State(depth, false, false)
  }

  /** The scan reads over `text` and is then where it was. */
  ghost predicate Neutral(text: string, depth: nat)
    requires depth > 0
  {
    forall rest :: ScanLength(text + rest, At(depth)) == Further(|text|, ScanLength(rest, At(depth)))
  }

  lemma NeutralConcat(a: string, b: string, depth: nat)
    requires depth > 0 && Neutral(a, depth) && Neutral(b, depth)
    ensures Neutral(a + b, depth)
  {
    forall rest
      ensures ScanLength(a + b + rest, At(depth)) == Further(|a + b|, ScanLength(rest, At(depth)))
    {
      assert a + b + rest == a + (b + rest);
      assert ScanLength(a + (b + rest), At(depth)) == Further(|a|, ScanLength(b + rest, At(depth)));
    }
  }

  lemma ScanStep(c: char, rest: string, s: State)
    requires Inside(s) && !Closes(s, c)
    ensures ScanLength([c] + rest, s) == Further(1, ScanLength(rest, Step(s, c)))
  {
    assert ([c] + rest)[1..] == rest;
  }

  lemma {:induction false} PlainIsNeutral(text: string, depth: nat)
    requires depth > 0 && PlainToken(text)
    ensures Neutral(text, depth)
  {
    if text == "" {
      assert forall rest: string :: "" + rest == rest;
    } else {
      assert forall c :: c in text[1..] ==> c in text;
      PlainIsNeutral(text[1..], depth);
      assert text[0] in text;
      assert Neutral([text[0]], depth) by {
        forall rest
          ensures ScanLength([text[0]] + rest, At(depth)) == Further(1, ScanLength(rest, At(depth)))
        {
          ScanStep(text[0], rest, At(depth));
        }
      }
      NeutralConcat([text[0]], text[1..], depth);
      assert [text[0]] + text[1..] == text;
    }
  }

  /** Braces and escaped characters inside a string do not count. */
  lemma {:induction false} BodyIsRead(body: string, rest: string, depth: nat)
    requires depth > 0 && WellEscaped(body)
    ensures ScanLength(body + rest, State(depth, true, false))
            == Further(|body|, ScanLength(rest, State(depth, true, false)))
    decreases |body|
  {
    var s := State(depth, true, false);
    if body == "" {
      assert body + rest == rest;
    } else if body[0] == '\\' {
      assert body + rest == [body[0]] + ([body[1]] + (body[2..] + rest));
      ScanStep(body[0], [body[1]] + (body[2..] + rest), s);
      ScanStep(body[1], body[2..] + rest, s.(escape := true));
      BodyIsRead(body[2..], rest, depth);
    } else {
      assert body + rest == [body[0]] + (body[1..] + rest);
      ScanStep(body[0], body[1..] + rest, s);
      BodyIsRead(body[1..], rest, depth);
    }
  }

  lemma StringIsNeutral(body: string, depth: nat)
    requires depth > 0 && WellEscaped(body)
    ensures Neutral(Quoted(body), depth)
  {
    forall rest
      ensures ScanLength(Quoted(body) + rest, At(depth)) == Further(|Quoted(body)|, ScanLength(rest, At(depth)))
    {
      assert Quoted(body) + rest == ['"'] + (body + (['"'] + rest));
      ScanStep('"', body + (['"'] + rest), At(depth));
      BodyIsRead(body, ['"'] + rest, depth);
      ScanStep('"', rest, State(depth, true, false));
    }
  }

  /** What stands between a pair of braces is read one level deeper. */
  lemma BracesAreNeutral(inner: string, depth: nat)
    requires depth > 0 && Neutral(inner, depth + 1)
    ensures Neutral("{" + inner + "}", depth)
  {
    forall rest
      ensures ScanLength("{" + inner + "}" + rest, At(depth)) == Further(|inner| + 2, ScanLength(rest, At(depth)))
    {
      assert "{" + inner + "}" + rest == ['{'] + (inner + (['}'] + rest));
      ScanStep('{', inner + (['}'] + rest), At(depth));
      assert ScanLength(inner + (['}'] + rest), At(depth + 1))
             == Further(|inner|, ScanLength(['}'] + rest, At(depth + 1)));
      ScanStep('}', rest, At(depth + 1));
    }
  }

  lemma BlankIsNeutral(text: string, depth: nat)
    requires depth > 0 && Blank(text)
    ensures Neutral(text, depth)
  {
    PlainIsNeutral(text, depth);
  }

  lemma {:induction false} ValueIsNeutral(json: Json, depth: nat)
    requires depth > 0 && WellFormed(json)
    ensures Neutral(Print(json), depth)
    decreases json, 0
  {
    hide Neutral, Blank, PlainToken;
    match json {
      case Token(text) =>
        PlainIsNeutral(text, depth);
      case Str(body) =>
        StringIsNeutral(body, depth);
      case Array(blank, elements) =>
        var inner := if elements == [] then blank else PrintElements(elements);
        if elements == [] { BlankIsNeutral(blank, depth); } else { ElementsAreNeutral(elements, depth); }
        BracketsArePlain();
        PlainIsNeutral("[", depth);
        PlainIsNeutral("]", depth);
        NeutralConcat("[", inner, depth);
        NeutralConcat("[" + inner, "]", depth);
      case Object(blank, members) =>
        if members == [] { BlankIsNeutral(blank, depth + 1); } else { MembersAreNeutral(members, depth + 1); }
        BracesAreNeutral(if members == [] then blank else PrintMembers(members), depth);
    }
  }

  lemma BracketsArePlain()
    ensures PlainToken("[") && PlainToken("]") && PlainToken(",") && PlainToken(":")
  {
  }

  lemma {:induction false} ElementIsNeutral(element: Element, depth: nat)
    requires depth > 0 && Blank(element.before) && WellFormed(element.value) && Blank(element.after)
    ensures Neutral(PrintElement(element), depth)
    decreases element, 1
  {
    hide Neutral, Blank;
    BlankIsNeutral(element.before, depth);
    ValueIsNeutral(element.value, depth);
    BlankIsNeutral(element.after, depth);
    NeutralConcat(element.before, Print(element.value), depth);
    NeutralConcat(element.before + Print(element.value), element.after, depth);
  }

  lemma {:induction false} ElementsAreNeutral(elements: seq<Element>, depth: nat)
    requires depth > 0 && elements != [] && WellFormedElements(elements)
    ensures Neutral(PrintElements(elements), depth)
    decreases elements, 2
  {
    hide Neutral, Blank, PlainToken;
    ElementIsNeutral(elements[0], depth);
    if |elements| > 1 {
      ElementsAreNeutral(elements[1..], depth);
      BracketsArePlain();
      PlainIsNeutral(",", depth);
      NeutralConcat(PrintElement(elements[0]), ",", depth);
      NeutralConcat(PrintElement(elements[0]) + ",", PrintElements(elements[1..]), depth);
    }
  }

  lemma {:induction false} MemberIsNeutral(member: Member, depth: nat)
    requires depth > 0 && WellFormedMembers([member])
    ensures Neutral(PrintMember(member), depth)
    decreases member, 1
  {
    hide Neutral, Blank, PlainToken, WellEscaped;
    var name := Quoted(member.name);
    BlankIsNeutral(member.before, depth);
    StringIsNeutral(member.name, depth);
    NeutralConcat(member.before, name, depth);
    BlankIsNeutral(member.afterName, depth);
    NeutralConcat(member.before + name, member.afterName, depth);
    BracketsArePlain();
    PlainIsNeutral(":", depth);
    NeutralConcat(member.before + name + member.afterName, ":", depth);
    BlankIsNeutral(member.beforeValue, depth);
    NeutralConcat(member.before + name + member.afterName + ":", member.beforeValue, depth);
    ValueIsNeutral(member.value, depth);
    NeutralConcat(member.before + name + member.afterName + ":" + member.beforeValue, Print(member.value), depth);
    BlankIsNeutral(member.after, depth);
    NeutralConcat(member.before + name + member.afterName + ":" + member.beforeValue + Print(member.value),
        member.after, depth);
  }

  lemma {:induction false} MembersAreNeutral(members: seq<Member>, depth: nat)
    requires depth > 0 && members != [] && WellFormedMembers(members)
    ensures Neutral(PrintMembers(members), depth)
    decreases members, 2
  {
    hide Neutral, Blank, PlainToken, WellEscaped;
    assert WellFormedMembers([members[0]]);
    MemberIsNeutral(members[0], depth);
    if |members| > 1 {
      MembersAreNeutral(members[1..], depth);
      BracketsArePlain();
      PlainIsNeutral(",", depth);
      NeutralConcat(PrintMember(members[0]), ",", depth);
      NeutralConcat(PrintMember(members[0]) + ",", PrintMembers(members[1..]), depth);
    }
  }

  // ----- The iterator is exact -----

  /** A catalog: an array of objects, with white space anywhere. */
  predicate ArrayOfObjects(json: Json) {
    json.Array? && WellFormed(json) && forall i :: 0 <= i < |json.elements| ==> json.elements[i].value.Object?
  }

  /** The scan of an object ends exactly at its closing brace. */
  lemma ObjectIsMeasured(json: Json, rest: string)
    requires json.Object? && WellFormed(json)
    ensures var text := Print(json) + rest;
            text[0] == '{' && ObjectLength(text) == Some(|Print(json)|)
  {
    var inner := if json.members == [] then json.blank else PrintMembers(json.members);
    if json.members == [] { BlankIsNeutral(json.blank, 1); } else { MembersAreNeutral(json.members, 1); }
    var text := Print(json) + rest;
    assert text[1..] == inner + (['}'] + rest);
    assert ScanLength(inner + (['}'] + rest), At(1)) == Further(|inner|, ScanLength(['}'] + rest, At(1)));
  }

  lemma SkipTo(gap: string, rest: string)
    requires '{' !in gap && rest != "" && rest[0] == '{'
    ensures FindChar(gap + rest, '{') == Some(|gap|)
  {
    assert gap + rest == gap + ['{'] + rest[1..];
    FindCharSkips(gap, '{', rest[1..]);
  }

  lemma {:induction false} NothingToFind(text: string)
    requires '{' !in text
    ensures FindChar(text, '{') == None && Objects(text) == []
  {
    if text != "" {
      NothingToFind(text[1..]);
    }
  }

  function ObjectTexts(elements: seq<Element>): seq<string> {
    if elements == [] then [] else [Print(elements[0].value)] + ObjectTexts(elements[1..])
  }

  lemma FirstObject(gap: string, json: Json, rest: string)
    requires '{' !in gap && json.Object? && WellFormed(json)
    ensures Objects(gap + (Print(json) + rest)) == [Print(json)] + Objects(rest)
  {
    hide ScanLength, Objects, FindChar, ObjectLength, WellFormed, PrintMembers;
    var text := gap + (Print(json) + rest);
    ObjectIsMeasured(json, rest);
    SkipTo(gap, Print(json) + rest);
    ThreePieces(gap, Print(json), rest);
    ObjectsStep(text, |gap|, |Print(json)|);
  }

  lemma ThreePieces(gap: string, object_: string, rest: string)
    ensures var text := gap + (object_ + rest);
            && text[|gap|..] == object_ + rest
            && text[|gap|..|gap| + |object_|] == object_
            && text[|gap| + |object_|..] == rest
  {
  }

  lemma {:induction false} ElementsAreFound(gap: string, elements: seq<Element>, rest: string)
    requires '{' !in gap && '{' !in rest
    requires elements != [] && WellFormedElements(elements)
    requires forall i :: 0 <= i < |elements| ==> elements[i].value.Object?
    ensures Objects(gap + PrintElements(elements) + rest) == ObjectTexts(elements)
    decreases |elements|
  {
    hide Objects, Print, WellFormed, FindChar;
    var first := elements[0];
    var tail := if |elements| == 1 then first.after + rest else first.after + "," + PrintElements(elements[1..]) + rest;
    assert elements[0].value.Object?;
    assert '{' !in gap + first.before && '{' !in first.after;
    assert gap + PrintElements(elements) + rest == (gap + first.before) + (Print(first.value) + tail);
    FirstObject(gap + first.before, first.value, tail);
    if |elements| == 1 {
      NothingToFind(tail);
    } else {
      assert '{' !in first.after + ",";
      ElementsAreFound(first.after + ",", elements[1..], rest);
    }
  }

  /** On every JSON array of objects, however it is spaced and whatever its strings
      hold, the iterator yields exactly the texts of the elements, in order. */
  lemma IteratorIsExact(before: string, json: Json, after: string)
    requires Blank(before) && ArrayOfObjects(json) && Blank(after)
    ensures Objects(before + Print(json) + after) == ObjectTexts(json.elements)
  {
    hide Objects;
    if json.elements == [] {
      assert before + Print(json) + after == before + "[" + json.blank + "]" + after;
      NothingToFind(before + Print(json) + after);
    } else {
      ElementsAreFound(before + "[", json.elements, "]" + after);
      assert before + Print(json) + after == (before + "[") + PrintElements(json.elements) + ("]" + after);
    }
  }
}
