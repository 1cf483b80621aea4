/** Results and the string operations of the Rust standard library that the
    journal and the manifest are read with. */
module Text {

  datatype Result<+T> = Ok(value: T) | Err(error: Error)

  datatype Option<+T> = None | Some(value: T)

  type u32 = x: int | 0 <= x < 0x1_0000_0000

  datatype Error =
    | AlreadyExists
    | InvalidInput(reason: string)
    | InvalidData(reason: string)
    | Io

  /** `str::split(sep)`: always at least one piece, none holding the separator. */
  function Split(text: string, sep: char): (pieces: seq<string>)
    ensures |pieces| > 0
    ensures forall p :: p in pieces ==> sep !in p
  {
    if text == "" then [""]
    else if text[0] == sep then [""] + Split(text[1..], sep)
    else
      var rest := Split(text[1..], sep);
      [[text[0]] + rest[0]] + rest[1..]
  }

  /** `[String]::join(sep)`. */
  function Join(pieces: seq<string>, sep: char): string {
    if |pieces| == 0 then ""
    else if |pieces| == 1 then pieces[0]
    else pieces[0] + [sep] + Join(pieces[1..], sep)
  }

  lemma {:induction false} SplitHead(head: string, rest: string, sep: char)
    requires sep !in head
    ensures Split(head + [sep] + rest, sep) == [head] + Split(rest, sep)
  {
    var text := head + [sep] + rest;
    if head == "" {
      assert text[1..] == rest;
    } else {
      assert text[1..] == head[1..] + [sep] + rest;
      SplitHead(head[1..], rest, sep);
      assert [text[0]] + head[1..] == head;
    }
  }

  lemma {:induction false} SplitWhole(text: string, sep: char)
    requires sep !in text
    ensures Split(text, sep) == [text]
  {
    if text != "" {
      SplitWhole(text[1..], sep);
      assert [text[0]] + text[1..] == text;
    }
  }

  /** Splitting undoes joining when no piece holds the separator. */
  lemma {:induction false} SplitJoin(pieces: seq<string>, sep: char)
    requires |pieces| > 0
    requires forall p :: p in pieces ==> sep !in p
    ensures Split(Join(pieces, sep), sep) == pieces
  {
    if |pieces| == 1 {
      SplitWhole(pieces[0], sep);
    } else {
      SplitHead(pieces[0], Join(pieces[1..], sep), sep);
      SplitJoin(pieces[1..], sep);
    }
  }

  /** Joining undoes splitting, on every text. */
  lemma {:induction false} JoinSplit(text: string, sep: char)
    ensures Join(Split(text, sep), sep) == text
  {
    if text != "" {
      JoinSplit(text[1..], sep);
      var rest := Split(text[1..], sep);
      if text[0] == sep {
        assert Split(text, sep)[1..] == rest;
      } else {
        var pieces := Split(text, sep);
        assert pieces[1..] == rest[1..];
      }
    }
  }

  /** One line terminator is a line feed, or a carriage return and a line feed. */
  function WithoutCr(line: string): string {
    if line != "" && line[|line| - 1] == '\r' then line[..|line| - 1] else line
  }

  /** `str::lines()`: a last line needs no terminator, and then keeps its carriage return. */
  function Lines(text: string): seq<string> {
    LinesFrom("", text)
  }

  function LinesFrom(open: string, text: string): seq<string>
    decreases |text|
  {
    if text == "" then (if open == "" then [] else [open])
    else if text[0] == '\n' then [WithoutCr(open)] + LinesFrom("", text[1..])
    else LinesFrom(open + [text[0]], text[1..])
  }

  lemma {:induction false} LinesHead(open: string, line: string, rest: string)
    requires '\n' !in line && '\r' !in open + line
    ensures LinesFrom(open, line + "\n" + rest) == [open + line] + Lines(rest)
    decreases |line|
  {
    var text := line + "\n" + rest;
    if line == "" {
      assert text[1..] == rest;
      assert open + line == open;
    } else {
      assert text[1..] == line[1..] + "\n" + rest;
      assert open + [line[0]] + line[1..] == open + line;
      LinesHead(open + [line[0]], line[1..], rest);
    }
  }

  /** A carriage return before a line feed belongs to the terminator. */
  lemma {:induction false} LinesHeadCr(open: string, line: string, rest: string)
    requires '\n' !in line && '\r' !in open + line
    ensures LinesFrom(open, line + "\r\n" + rest) == [open + line] + Lines(rest)
    decreases |line|
  {
    var text := line + "\r\n" + rest;
    if line == "" {
      assert text[0] == '\r' && text[1..][0] == '\n' && text[1..][1..] == rest;
      assert open + ['\r'] + line == open + ['\r'] && (open + ['\r'])[..|open|] == open && open + line == open;
    } else {
      assert text[1..] == line[1..] + "\r\n" + rest;
      assert open + [line[0]] + line[1..] == open + line;
      LinesHeadCr(open + [line[0]], line[1..], rest);
    }
  }

  // ----- Searching -----

  function Further(n: nat, found: Option<nat>): Option<nat> {
    match found
    case None => None
    case Some(m) => Some(n + m)
  }

  /** `strchr`. */
  function FindChar(text: string, c: char): (r: Option<nat>)
    ensures r.Some? ==> r.value < |text| && text[r.value] == c && c !in text[..r.value]
    ensures r.None? ==> c !in text
  {
    if text == "" then None
    else if text[0] == c then Some(0)
    else
      var rest := FindChar(text[1..], c);
      assert rest.Some? ==> text[..rest.value + 1] == [text[0]] + text[1..][..rest.value];
      Further(1, rest)
  }

  lemma {:induction false} FindCharSkips(before: string, c: char, after: string)
    requires c !in before
    ensures FindChar(before + [c] + after, c) == Some(|before|)
  {
    var text := before + [c] + after;
    if before != "" {
      assert text[1..] == before[1..] + [c] + after;
      FindCharSkips(before[1..], c, after);
    }
  }

  // ----- Sizes and digests -----

  /** `usize` is 32 bits wide. */
  const USIZE_LIMIT := 0x1_0000_0000

  /** SHA-256 in lower-case hexadecimal. */
  predicate ValidDigest(digest: string) {
    |digest| == 64 && forall c :: c in digest ==> '0' <= c <= '9' || 'a' <= c <= 'f'
  }
}
