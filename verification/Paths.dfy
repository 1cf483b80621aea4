/** Relative paths as `std::path` reads them. The text of a path is what the
    journal stores; its components are what names a file, so that "a//b",
    "a/./b" and "a/b" are one and the same file. */
module Paths {
  import opened Text

  type Path = seq<string>

  datatype Component = RootDir | CurDir | ParentDir | Normal(name: string)

  /** `Path::components`: empty pieces vanish, and so does "." except in front. */
  function ComponentsOf(pieces: seq<string>, first: bool): seq<Component> {
    if pieces == [] then []
    else
      var rest := ComponentsOf(pieces[1..], false);
      if pieces[0] == "" then rest
      else if pieces[0] == "." then (if first then [CurDir] + rest else rest)
      else if pieces[0] == ".." then [ParentDir] + rest
      else [Normal(pieces[0])] + rest
  }

  predicate IsAbsolute(text: string) {
    text != "" && text[0] == '/'
  }

  function Components(text: string): seq<Component> {
    if IsAbsolute(text) then [RootDir] + ComponentsOf(Split(text, '/'), false)
    else ComponentsOf(Split(text, '/'), true)
  }

  /** `validate_relative_path`. */
  predicate ValidRelativePath(text: string) {
    && text != ""
    && !IsAbsolute(text)
    && (forall c :: c in Components(text) ==> c.Normal?)
    && '\t' !in text && '\n' !in text && '\r' !in text
  }

  function Names(components: seq<Component>): Path {
    if components == [] then []
    else if components[0].Normal? then [components[0].name] + Names(components[1..])
    else Names(components[1..])
  }

  /** The file that a path text names. Two `PathBuf`s are equal when their components are. */
  function Key(text: string): Path {
    Names(Components(text))
  }

  /** A validated destination names a file below the root: it has a component, and
      every component is a plain name, so no path can climb out of the root. */
  lemma ValidPathStaysBelowRoot(text: string)
    requires ValidRelativePath(text)
    ensures |Key(text)| > 0
    ensures forall name :: name in Key(text) ==> name != "" && name != "." && name != ".." && '/' !in name
  {
    var pieces := Split(text, '/');
    assert pieces[0] != "";
    assert Components(text)[0].Normal?;
    PlainNames(pieces, true);
  }

  lemma {:induction false} PlainNames(pieces: seq<string>, first: bool)
    requires forall p :: p in pieces ==> '/' !in p
    ensures forall name :: name in Names(ComponentsOf(pieces, first)) ==>
              name != "" && name != "." && name != ".." && '/' !in name
  {
    if pieces != [] {
      PlainNames(pieces[1..], false);
      var rest := ComponentsOf(pieces[1..], false);
      var all := ComponentsOf(pieces, first);
      if all != rest {
        assert all[1..] == rest;
      }
    }
  }

  predicate IsName(name: string) {
    name != "" && name != "." && name != ".." && '/' !in name && '\t' !in name && '\n' !in name && '\r' !in name
  }

  lemma TwoPiecesOf(a: string, b: string)
    requires '/' !in a && '/' !in b
    ensures Split(a + "/" + b, '/') == [a, b]
  {
    SplitHead(a, b, '/');
    SplitWhole(b, '/');
    assert a + "/" + b == a + ['/'] + b;
  }

  lemma ThreePiecesOf(a: string, b: string, c: string)
    requires '/' !in a && '/' !in b && '/' !in c
    ensures Split(a + "/" + (b + "/" + c), '/') == [a, b, c]
  {
    SplitHead(a, b + "/" + c, '/');
    TwoPiecesOf(b, c);
    assert a + "/" + (b + "/" + c) == a + ['/'] + (b + "/" + c);
  }

  lemma ComponentsOfTwo(a: string, b: string, first: bool)
    ensures ComponentsOf([a, b], first) == Piece(a, first) + Piece(b, false)
  {
    ComponentsOfOne(b, false);
    assert [a, b][1..] == [b];
  }

  lemma ComponentsOfOne(a: string, first: bool)
    ensures ComponentsOf([a], first) == Piece(a, first)
  {
    assert [a][1..] == [] && ComponentsOf([], false) == [];
  }

  lemma ComponentsOfThree(a: string, b: string, c: string, first: bool)
    ensures ComponentsOf([a, b, c], first) == Piece(a, first) + (Piece(b, false) + Piece(c, false))
  {
    ComponentsOfTwo(b, c, false);
    assert [a, b, c][1..] == [b, c];
  }

  function Piece(piece: string, first: bool): seq<Component> {
    if piece == "" then []
    else if piece == "." then (if first then [CurDir] else [])
    else if piece == ".." then [ParentDir]
    else [Normal(piece)]
  }

  lemma TwoSpelled(a: string, b: string)
    requires '/' !in a && '/' !in b && a != ""
    ensures Components(a + "/" + b) == Piece(a, true) + Piece(b, false) && !IsAbsolute(a + "/" + b)
  {
    hide ComponentsOf, Split;
    TwoPiecesOf(a, b);
    ComponentsOfTwo(a, b, true);
    assert (a + "/" + b)[0] == a[0] && a[0] in a;
  }

  lemma ThreeSpelled(a: string, b: string, c: string)
    requires '/' !in a && '/' !in b && '/' !in c && a != ""
    ensures Components(a + "/" + (b + "/" + c)) == Piece(a, true) + (Piece(b, false) + Piece(c, false))
    ensures !IsAbsolute(a + "/" + (b + "/" + c))
  {
    hide ComponentsOf, Split;
    ThreePiecesOf(a, b, c);
    ComponentsOfThree(a, b, c, true);
    assert (a + "/" + (b + "/" + c))[0] == a[0] && a[0] in a;
  }

  lemma TwoNames(a: string, b: string)
    ensures Names([Normal(a), Normal(b)]) == [a, b]
  {
    assert [Normal(a), Normal(b)][1..] == [Normal(b)] && [Normal(b)][1..] == [];
    assert Names([]) == [] && Names([Normal(b)]) == [b];
  }

  /** Which spellings of a file are valid and the same. */
  lemma SameSpellings(a: string, b: string)
    requires IsName(a) && IsName(b)
    ensures ValidRelativePath(a + "/" + b) && Key(a + "/" + b) == [a, b]
    ensures ValidRelativePath(a + "/" + ("." + "/" + b)) && Key(a + "/" + ("." + "/" + b)) == [a, b]
    ensures ValidRelativePath(a + "/" + ("" + "/" + b)) && Key(a + "/" + ("" + "/" + b)) == [a, b]
  {
    hide Components, Names, IsAbsolute;
    TwoSpelled(a, b);
    ThreeSpelled(a, ".", b);
    ThreeSpelled(a, "", b);
    TwoNames(a, b);
    assert [Normal(a)] + ([] + [Normal(b)]) == [Normal(a), Normal(b)] == [Normal(a)] + [Normal(b)];
    assert '/' !in "." && '/' !in "";
  }

  /** And which are refused. */
  lemma RefusedSpellings(a: string, b: string)
    requires IsName(a) && IsName(b)
    ensures !ValidRelativePath("." + "/" + a) && !ValidRelativePath(".." + "/" + a)
    ensures !ValidRelativePath(a + "/" + (".." + "/" + b)) && !ValidRelativePath("/" + a) && !ValidRelativePath("")
    ensures !ValidRelativePath(a + "\t" + b) && !ValidRelativePath(a + "\n" + b) && !ValidRelativePath(a + "\r" + b)
  {
    hide Components;
    TwoSpelled(".", a);
    TwoSpelled("..", a);
    ThreeSpelled(a, "..", b);
    var cs := [Normal(a)] + ([ParentDir] + [Normal(b)]);
    var here, up := "." + "/" + a, ".." + "/" + a;
    assert Components(here)[0] == CurDir && Components(up)[0] == ParentDir && cs[1] == ParentDir;
    assert CurDir in Components(here) && ParentDir in Components(up);
    assert (a + "\t" + b)[|a|] == '\t' && (a + "\n" + b)[|a|] == '\n' && (a + "\r" + b)[|a|] == '\r';
  }
}
