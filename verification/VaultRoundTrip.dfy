/** Writing the vault's entries as JSON and reading them back: what exactly survives.

    The parser takes the first closing brace for the end of an object. Where an
    entry is printed with an opening brace after that, it reads a stray object,
    whose fields it finds in the rest of that entry or else in the next one. */
module VaultRoundTrip {
  import opened Text
  import opened VaultJson
  import opened VaultParse

  /** No closing brace with an opening brace somewhere after it. */
  predicate Separated(text: string) {
    forall a, b :: 0 <= a < b < |text| && text[a] == '}' ==> text[b] != '{'
  }

  /** Every entry but the last is printed with no opening brace after a closing one. */
  predicate Separable(entries: seq<Entry>) {
    forall i :: 0 <= i < |entries| - 1 ==> Separated(Body(entries[i]))
  }

  function PrintFrom(entries: seq<Entry>): string
    requires entries != []
  {
    Printed(entries[0]) + (if |entries| == 1 then "" else "," + PrintFrom(entries[1..]))
  }

  lemma {:induction false} PrintFromAppend(entries: seq<Entry>, last: Entry)
    requires entries != []
    ensures PrintFrom(entries + [last]) == PrintFrom(entries) + "," + Printed(last)
  {
    hide Printed;
    if |entries| > 1 {
      PrintFromAppend(entries[1..], last);
      assert (entries + [last])[1..] == entries[1..] + [last];
    } else {
      assert (entries + [last])[1..] == [last];
    }
  }

  lemma {:induction false} PrintAllIsPrintFrom(entries: seq<Entry>)
    requires entries != []
    ensures PrintAll(entries) == PrintFrom(entries)
  {
    hide Printed;
    var n := |entries| - 1;
    if n > 0 {
      PrintAllIsPrintFrom(entries[..n]);
      PrintFromAppend(entries[..n], entries[n]);
      assert entries == entries[..n] + [entries[n]];
    }
  }

  /** After its first closing brace, what is left of the last object holds no further entry. */
  lemma {:induction false} NothingAfterLast(text: string, budget: nat)
    requires NoneBetween(text, Needle("name"), 0, |text| + 1)
    ensures ParseEntries(text, budget) == []
    decreases |text|
  {
    hide ReadObject, ParseEntries, NoneBetween, FindChar, Needle;
    if budget == 0 || '{' !in text {
      ParseEnd(text, budget);
    } else {
      var start := FindChar(text, '{').value;
      var inside := text[start + 1..];
      ParseStep(text, budget, start);
      NoneInTail(text, start + 1);
      NotFound(inside);
      var end := FindChar(inside, '}');
      if end.Some? {
        NoneInTail(inside, end.value + 1);
        NothingAfterLast(inside[end.value + 1..], budget);
      }
    }
  }

  lemma NoneInTail(text: string, n: nat)
    requires n <= |text| && NoneBetween(text, Needle("name"), 0, |text| + 1)
    ensures NoneBetween(text[n..], Needle("name"), 0, |text[n..]| + 1)
  {
    forall p | 0 <= p < |text[n..]| + 1
      ensures !(Needle("name") <= text[n..][p..])
    {
      assert text[n..][p..] == text[n + p..];
    }
  }

  lemma NotFound(text: string)
    requires NoneBetween(text, Needle("name"), 0, |text| + 1)
    ensures ReadObject(text).None?
  {
    hide Find;
    if Find(text, Needle("name")).Some? {
      assert false;
    }
  }

  // ----- Where the parser is in a printed entry -----

  /** Behind the first closing brace from place `p` on. */
  function NextEnd(e: Entry, p: nat): (q: nat)
    requires p < |Closed(e)|
    ensures p < q <= |Closed(e)|
    ensures Closed(e)[q - 1] == '}' && '}' !in Closed(e)[p..q - 1]
  {
    var text := Closed(e)[p..];
    assert text[|text| - 1] == '}';
    var n := FindChar(text, '}').value;
    assert Closed(e)[p..p + n] == text[..n];
    p + n + 1
  }

  predicate BraceFrom(e: Entry, p: nat)
    requires p <= |Closed(e)|
  {
    '{' in Closed(e)[p..]
  }

  /** Behind the first opening brace from place `p` on. */
  function NextStray(e: Entry, p: nat): (q: nat)
    requires p <= |Closed(e)| && BraceFrom(e, p)
    ensures p < q < |Closed(e)|
    ensures Closed(e)[q - 1] == '{' && '{' !in Closed(e)[p..q - 1]
  {
    var text := Closed(e)[p..];
    var n := FindChar(text, '{').value;
    assert Closed(e)[p..p + n] == text[..n];
    assert Closed(e)[p + n] == '{' && Closed(e)[|Closed(e)| - 1] == '}';
    p + n + 1
  }

  /** Place `p` of a printed entry, the entries behind it, and the end. */
  function Tail(e: Entry, p: nat, rest: seq<Entry>): string
    requires p <= |Closed(e)|
  {
    Closed(e)[p..] + Behind(rest)
  }

  function Behind(rest: seq<Entry>): string {
    if rest == [] then "]" else ",{" + Closed(rest[0]) + Behind(rest[1..])
  }

  lemma PrintedIsClosed(e: Entry)
    ensures Printed(e) == "{" + Closed(e)
  {
    hide Body;
  }

  lemma {:induction false} PrintedIsTail(rest: seq<Entry>)
    requires rest != []
    ensures PrintFrom(rest) + "]" == "{" + Closed(rest[0]) + Behind(rest[1..])
    decreases |rest|
  {
    hide Closed, Printed;
    PrintedIsClosed(rest[0]);
    if |rest| > 1 {
      PrintedIsTail(rest[1..]);
      CommaBefore(Closed(rest[1]), Behind(rest[1..][1..]));
      assert PrintFrom(rest) + "]" == Printed(rest[0]) + ("," + (PrintFrom(rest[1..]) + "]"));
      assert Printed(rest[0]) + Behind(rest[1..]) == "{" + Closed(rest[0]) + Behind(rest[1..]);
    }
  }

  lemma CommaBefore(first: string, rest: string)
    ensures "," + ("{" + first + rest) == ",{" + first + rest
  {
  }

  /** The object that is read from a stray brace before place `q` of `e`, when `next` comes
      after `e`: each field that begins before `q` is taken from `next`. */
  function Stray(e: Entry, q: nat, next: Entry): Entry {
    Entry(next.name,
          if q <= Offset(e, 1) then e.username else next.username,
          if q <= Offset(e, 2) then e.password else next.password,
          if q <= Offset(e, 3) then e.notes else next.notes)
  }

  lemma NameComesFirst(e: Entry)
    ensures Parts(e)[..0] == [] && Offset(e, 0) == 0
  {
  }

  lemma StrayRead(e: Entry, q: nat, rest: seq<Entry>)
    requires 0 < q <= |Closed(e)| && rest != [] && ValidEntry(e) && ValidEntry(rest[0])
    ensures ReadObject(Tail(e, q, rest)) == Some(Stray(e, q, rest[0]))
  {
    hide ReadField, Closed, PartsText, Behind;
    assert Tail(e, q, rest) == (Closed(e) + Behind(rest))[q..];
    NameComesFirst(e);
    FieldFrom(e, q, 0, Behind(rest));
    FieldFrom(e, q, 1, Behind(rest));
    FieldFrom(e, q, 2, Behind(rest));
    FieldFrom(e, q, 3, Behind(rest));
    ReadsWhatWasPrinted(rest[0], Behind(rest[1..]));
    ReadFromBehind(rest, 0);
    ReadFromBehind(rest, 1);
    ReadFromBehind(rest, 2);
    ReadFromBehind(rest, 3);
    var next := rest[0];
    assert Parts(e)[1].value == e.username && Parts(e)[2].value == e.password && Parts(e)[3].value == e.notes;
    assert Parts(next)[0].value == next.name && Parts(next)[1].value == next.username;
    assert Parts(next)[2].value == next.password && Parts(next)[3].value == next.notes;
  }

  lemma ReadFromBehind(rest: seq<Entry>, j: nat)
    requires rest != [] && j < 4
    ensures ReadField(Behind(rest), Parts(rest[0])[j].key)
            == ReadField(Closed(rest[0]) + Behind(rest[1..]), Parts(rest[0])[j].key)
  {
    hide ReadField, Closed;
    var key, after := Parts(rest[0])[j].key, Closed(rest[0]) + Behind(rest[1..]);
    var text := ",{" + after;
    assert Behind(rest) == text;
    KeysAreLetters(key);
    forall p | 0 <= p < 2
      ensures !(Needle(key) <= text[p..])
    {
      assert text[p..][0] == text[p];
      assert Needle(key)[0] == '"';
    }
    ReadFieldSkips(",{", after, key);
  }

  // ----- What the parser reads next -----

  /** It reads an entry from behind its opening brace. */
  lemma EntryRead(gap: string, entries: seq<Entry>, budget: nat)
    requires '{' !in gap && entries != [] && ValidEntry(entries[0]) && budget > 0
    ensures var e, rest := entries[0], entries[1..];
            ParseEntries(gap + "{" + Closed(e) + Behind(rest), budget)
                == [e] + ParseEntries(Tail(e, NextEnd(e, 0), rest), budget - 1)
  {
    hide ReadObject, ParseEntries, FindChar, ValidEntry, Behind, Closed;
    var e, rest := entries[0], entries[1..];
    var inside := Closed(e) + Behind(rest);
    assert gap + "{" + Closed(e) + Behind(rest) == gap + ['{'] + inside;
    FindCharSkips(gap, '{', inside);
    assert (gap + ['{'] + inside)[|gap| + 1..] == inside;
    ParseStep(gap + ['{'] + inside, budget, |gap|);
    ReadsWhatWasPrinted(e, Behind(rest));
    EndFound(e, 0, Behind(rest));
    assert inside == Closed(e)[0..] + Behind(rest);
  }

  lemma EndFound(e: Entry, p: nat, rest: string)
    requires p < |Closed(e)|
    ensures var q, text := NextEnd(e, p), Closed(e)[p..] + rest;
            FindChar(text, '}') == Some(q - 1 - p) && text[q - p..] == Closed(e)[q..] + rest
  {
    hide Closed, FindChar;
    var q := NextEnd(e, p);
    assert Closed(e)[p..] + rest == Closed(e)[p..q - 1] + ['}'] + (Closed(e)[q..] + rest);
    FindCharSkips(Closed(e)[p..q - 1], '}', Closed(e)[q..] + rest);
  }

  lemma StrayText(text: string, p: nat, q: nat, behind: string)
    requires p < q <= |text| && text[q - 1] == '{'
    ensures text[p..] + behind == text[p..q - 1] + ['{'] + (text[q..] + behind)
    ensures (text[p..] + behind)[q - p..] == text[q..] + behind
  {
  }

  /** From a place with an opening brace after it, it reads a stray object. */
  lemma StrayRound(e: Entry, p: nat, rest: seq<Entry>, budget: nat)
    requires 0 < p <= |Closed(e)| && BraceFrom(e, p) && budget > 0
    requires rest != [] && ValidEntry(e) && ValidEntry(rest[0])
    ensures var q := NextStray(e, p);
            ParseEntries(Tail(e, p, rest), budget)
            == [Stray(e, q, rest[0])] + ParseEntries(Tail(e, NextEnd(e, q), rest), budget - 1)
  {
    hide ReadObject, ParseEntries, FindChar, ValidEntry, Closed, Behind, Stray;
    var q := NextStray(e, p);
    var inside := Tail(e, q, rest);
    StrayText(Closed(e), p, q, Behind(rest));
    FindCharSkips(Closed(e)[p..q - 1], '{', inside);
    ParseStep(Tail(e, p, rest), budget, q - 1 - p);
    StrayRead(e, q, rest);
    EndFound(e, q, Behind(rest));
  }

  /** From a place with no opening brace after it, it reads the next entry. */
  lemma NextRound(e: Entry, p: nat, rest: seq<Entry>, budget: nat)
    requires p <= |Closed(e)| && !BraceFrom(e, p) && budget > 0
    requires rest != [] && ValidEntry(rest[0])
    ensures ParseEntries(Tail(e, p, rest), budget)
            == [rest[0]] + ParseEntries(Tail(rest[0], NextEnd(rest[0], 0), rest[1..]), budget - 1)
  {
    hide ParseEntries, ValidEntry, Closed;
    EntryRead(Closed(e)[p..] + ",", rest, budget);
    assert Tail(e, p, rest) == Closed(e)[p..] + "," + "{" + Closed(rest[0]) + Behind(rest[1..]);
  }

  lemma NeedleIsLong(key: string)
    ensures |Needle(key)| > 1
  {
  }

  /** Behind the last entry nothing more is read. */
  lemma LastRound(e: Entry, p: nat, budget: nat)
    requires 0 < p <= |Closed(e)|
    ensures ParseEntries(Tail(e, p, []), budget) == []
  {
    hide ParseEntries, Closed, PartsText, Needle;
    var text := Closed(e) + "]";
    ClosedIsParts(e);
    KeysDiffer(e, 0);
    NameComesFirst(e);
    KeyInParts(Parts(e), 0, "]");
    var needle := Needle("name");
    NeedleIsLong("name");
    assert text[p..] == Tail(e, p, []);
    forall q | 0 <= q < |text[p..]| + 1
      ensures !(Needle("name") <= text[p..][q..])
    {
      assert text[p..][q..] == text[p + q..];
      assert p + q >= |Closed(e)| ==> |text[p + q..]| <= 1;
    }
    NothingAfterLast(text[p..], budget);
  }

  /** Separated means that the parser finds no opening brace before the next entry. */
  lemma SeparatedHasNoStray(e: Entry)
    ensures Separated(Body(e)) <==> !BraceFrom(e, NextEnd(e, 0))
  {
    hide Body;
    var body, text, n := Body(e), Closed(e), NextEnd(e, 0) - 1;
    assert text == body + "}" && text[n] == '}';
    forall i | 0 <= i < n
      ensures text[i] != '}'
    {
      assert text[0..n][i] == text[i];
    }
    if Separated(body) {
      forall i | n < i < |text|
        ensures text[i] != '{'
      {
        assert i < |body| ==> body[n] == '}' && text[i] == body[i];
      }
    } else {
      var a, b :| 0 <= a < b < |body| && body[a] == '}' && body[b] == '{';
      assert text[a] == body[a] && text[b] == body[b];
      assert n < b && text[n + 1..][b - n - 1] == '{';
    }
  }

  // ----- Separable entries -----

  /** Up to an entry that is not separated, or to the last one, all entries are read. */
  lemma {:induction false} SeparableAreRead(gap: string, entries: seq<Entry>, k: nat, budget: nat)
    requires '{' !in gap && k < |entries| && k < budget
    requires forall e :: e in entries ==> ValidEntry(e)
    requires forall i :: 0 <= i < k ==> Separated(Body(entries[i]))
    ensures ParseEntries(gap + PrintFrom(entries) + "]", budget)
            == entries[..k + 1]
               + ParseEntries(Tail(entries[k], NextEnd(entries[k], 0), entries[k + 1..]), budget - k - 1)
    decreases k
  {
    hide ParseEntries, Body, ValidEntry, Separated, PrintFrom, Closed, Behind, BraceFrom, Tail;
    var e, rest := entries[0], entries[1..];
    PrintedIsTail(entries);
    GapBefore(gap, PrintFrom(entries), Closed(e), Behind(rest));
    EntryRead(gap, entries, budget);
    if k == 0 {
      assert entries[..1] == [e];
    } else {
      SeparatedHasNoStray(e);
      NoGap(e, rest);
      SeparableAreRead(Closed(e)[NextEnd(e, 0)..] + ",", rest, k - 1, budget - 1);
      assert entries[..k + 1] == [e] + rest[..k] && rest[k - 1] == entries[k] && rest[k..] == entries[k + 1..];
    }
  }

  lemma GapBefore(gap: string, printed: string, first: string, rest: string)
    requires printed + "]" == "{" + first + rest
    ensures gap + printed + "]" == gap + "{" + first + rest
  {
    assert gap + printed + "]" == gap + (printed + "]");
    assert gap + "{" + first + rest == gap + ("{" + first + rest);
  }

  lemma GapIsTail(left: string, printed: string, first: string, rest: string)
    requires printed + "]" == "{" + first + rest
    ensures (left + ",") + printed + "]" == left + (",{" + first + rest)
  {
    assert (left + ",") + printed + "]" == left + ("," + (printed + "]"));
    CommaBefore(first, rest);
  }

  /** What is left of an entry, seen as the gap before the next one. */
  lemma NoGap(e: Entry, rest: seq<Entry>)
    requires rest != []
    ensures !BraceFrom(e, NextEnd(e, 0)) ==> '{' !in Closed(e)[NextEnd(e, 0)..] + ","
    ensures Tail(e, NextEnd(e, 0), rest) == (Closed(e)[NextEnd(e, 0)..] + ",") + PrintFrom(rest) + "]"
  {
    hide PrintFrom, Closed;
    PrintedIsTail(rest);
    GapIsTail(Closed(e)[NextEnd(e, 0)..], PrintFrom(rest), Closed(rest[0]), Behind(rest[1..]));
  }

  /** Up to 32 entries are read back exactly as they were written if no entry but the
      last is printed with an opening brace after a closing one. */
  lemma SeparableRoundTrip(entries: seq<Entry>)
    requires |entries| <= MAX_ENTRIES && forall e :: e in entries ==> ValidEntry(e)
    requires Separable(entries)
    ensures FromJson(ToJson(entries)) == entries
  {
    hide ParseEntries, ValidEntry, PrintFrom, PrintAll, Tail, Closed, Separated, Body;
    if entries == [] {
      NothingPrinted([]);
      ParseEnd("[]", MAX_ENTRIES);
      assert ToJson(entries) == "[]";
    } else {
      var n := |entries| - 1;
      PrintAllIsPrintFrom(entries);
      SeparableAreRead("[", entries, n, MAX_ENTRIES);
      LastRound(entries[n], NextEnd(entries[n], 0), MAX_ENTRIES - n - 1);
      assert entries[n + 1..] == [] && entries[..n + 1] == entries;
    }
  }

  // ----- Entries that are not separable -----

  function Min(a: nat, b: nat): nat {
    if a <= b then a else b
  }

  /** However the parser got to the entries `rest`, it reads each of them at least
      once, and once more when an opening brace is left before them. */
  lemma {:induction false} ReadAtLeastOnce(e: Entry, p: nat, rest: seq<Entry>, budget: nat)
    requires 0 < p <= |Closed(e)| && rest != [] && ValidEntry(e) && forall f :: f in rest ==> ValidEntry(f)
    ensures |ParseEntries(Tail(e, p, rest), budget)| >= Min(budget, |rest| + (if BraceFrom(e, p) then 1 else 0))
    decreases |rest|, |Closed(e)| - p
  {
    hide ParseEntries, ValidEntry, Closed, Stray, BraceFrom, Tail;
    if budget > 0 {
      if BraceFrom(e, p) {
        var q := NextStray(e, p);
        StrayRound(e, p, rest, budget);
        ReadAtLeastOnce(e, NextEnd(e, q), rest, budget - 1);
      } else {
        NextRound(e, p, rest, budget);
        if |rest| > 1 {
          ReadAtLeastOnce(rest[0], NextEnd(rest[0], 0), rest[1..], budget - 1);
        }
      }
    }
  }

  /** The first entry, but for the last, that is not separated from the next one. */
  ghost predicate FirstInseparable(entries: seq<Entry>, k: nat) {
    && k < |entries| - 1
    && !Separated(Body(entries[k]))
    && forall i :: 0 <= i < k ==> Separated(Body(entries[i]))
  }

  lemma FindInseparable(entries: seq<Entry>) returns (k: nat)
    requires !Separable(entries)
    ensures FirstInseparable(entries, k)
  {
    hide Separated, Body;
    k := 0;
    while Separated(Body(entries[k]))
      invariant k < |entries| - 1 && forall i :: 0 <= i < k ==> Separated(Body(entries[i]))
      decreases |entries| - k
    {
      k := k + 1;
      assert k < |entries| - 1;
    }
  }

  /** Of inseparable entries more are read than were written, or as many as there is room for. */
  lemma InseparableAreReadTooOften(gap: string, entries: seq<Entry>, budget: nat)
    requires '{' !in gap && !Separable(entries) && |entries| <= budget
    requires forall e :: e in entries ==> ValidEntry(e)
    ensures |ParseEntries(gap + PrintFrom(entries) + "]", budget)| >= Min(budget, |entries| + 1)
  {
    hide ParseEntries, ValidEntry, Body, PrintFrom, Separated, Closed, Tail, BraceFrom, Separable;
    var k := FindInseparable(entries);
    SeparableAreRead(gap, entries, k, budget);
    SeparatedHasNoStray(entries[k]);
    assert forall f :: f in entries[k + 1..] ==> f in entries;
    ReadAtLeastOnce(entries[k], NextEnd(entries[k], 0), entries[k + 1..], budget - k - 1);
  }

  // ----- At the limit of entries -----

  /** Every field of `e` that begins at place `q` or later is that of `next`. */
  predicate AlikeFrom(e: Entry, q: nat, next: Entry) {
    && (q <= Offset(e, 1) ==> e.username == next.username)
    && (q <= Offset(e, 2) ==> e.password == next.password)
    && (q <= Offset(e, 3) ==> e.notes == next.notes)
  }

  /** The stray objects of `e` from place `p` on are read as `next`. */
  ghost predicate StraysAlike(e: Entry, p: nat, next: Entry)
    requires p <= |Closed(e)|
  {
    BraceFrom(e, p) ==> AlikeFrom(e, NextStray(e, p), next)
  }

  lemma AlikeStray(e: Entry, p: nat, next: Entry)
    requires p <= |Closed(e)| && BraceFrom(e, p)
    ensures Stray(e, NextStray(e, p), next) == next <==> StraysAlike(e, p, next)
    ensures StraysAlike(e, p, next) ==> StraysAlike(e, NextEnd(e, NextStray(e, p)), next)
  {
    hide Offset, Closed;
  }

  /** With stray objects like `x` and nothing but `x` behind, `x` is all that is read. */
  lemma {:induction false} ReadsOnly(e: Entry, p: nat, rest: seq<Entry>, x: Entry, budget: nat)
    requires 0 < p <= |Closed(e)| && ValidEntry(e) && ValidEntry(x)
    requires forall i :: 0 <= i < |rest| ==> rest[i] == x
    requires budget <= |rest| && StraysAlike(e, p, x)
    ensures ParseEntries(Tail(e, p, rest), budget) == rest[..budget]
    decreases |rest|, |Closed(e)| - p
  {
    hide ParseEntries, ValidEntry, Closed, Stray, BraceFrom, Tail, AlikeFrom;
    if budget == 0 {
      ParseEnd(Tail(e, p, rest), 0);
    } else if BraceFrom(e, p) {
      var q := NextStray(e, p);
      StrayRound(e, p, rest, budget);
      AlikeStray(e, p, x);
      ReadsOnly(e, NextEnd(e, q), rest, x, budget - 1);
    } else {
      NextRound(e, p, rest, budget);
      SameIsAlike(x, NextEnd(x, 0));
      ReadsOnly(x, NextEnd(x, 0), rest[1..], x, budget - 1);
    }
  }

  lemma SameIsAlike(x: Entry, p: nat)
    requires p <= |Closed(x)|
    ensures StraysAlike(x, p, x)
  {
  }

  /** The other way round: when the entries behind are read back `d` places late, they are all the same. */
  lemma {:induction false} ReadLate(e: Entry, p: nat, rest: seq<Entry>, d: nat)
    requires 0 < p <= |Closed(e)| && ValidEntry(e) && forall f :: f in rest ==> ValidEntry(f)
    requires 0 < d <= |rest| && forall i :: 0 <= i < d ==> rest[i] == rest[0]
    requires StraysAlike(e, p, rest[0])
    requires ParseEntries(Tail(e, p, rest), |rest| - d) == rest[d..]
    ensures forall i :: 0 <= i < |rest| ==> rest[i] == rest[0]
    decreases |rest| - d
  {
    hide ParseEntries, ValidEntry, Closed, Stray, BraceFrom, Tail, AlikeFrom;
    if d < |rest| {
      var x := rest[0];
      if BraceFrom(e, p) {
        var q := NextStray(e, p);
        StrayRound(e, p, rest, |rest| - d);
        AlikeStray(e, p, x);
        assert rest[d..] == [rest[d]] + rest[d + 1..];
        ReadLate(e, NextEnd(e, q), rest, d + 1);
      } else {
        NextRound(e, p, rest, |rest| - d);
        assert rest[d..] == [rest[d]] + rest[d + 1..] && rest[1..][d..] == rest[d + 1..];
        assert rest[1] == x by { assert rest[d] == x; }
        SameIsAlike(x, NextEnd(x, 0));
        ReadLate(x, NextEnd(x, 0), rest[1..], d);
        assert forall i :: 0 < i < |rest| ==> rest[i] == rest[1..][i - 1];
      }
    }
  }

  /** The only inseparable entries that are read back: there are as many as there is
      room for, all those after the first inseparable one are the same, and it has
      the same fields as they from its first stray brace on. */
  ghost predicate SavedByTheLimit(entries: seq<Entry>) {
    && |entries| == MAX_ENTRIES
    && exists k: nat :: FirstInseparable(entries, k) && RepeatedAfter(entries, k)
  }

  ghost predicate RepeatedAfter(entries: seq<Entry>, k: nat)
    requires k < |entries| - 1
  {
    && StraysAlike(entries[k], NextEnd(entries[k], 0), entries[k + 1])
    && forall j :: k < j < |entries| ==> entries[j] == entries[k + 1]
  }

  lemma RestReadBack(e: Entry, p: nat, rest: seq<Entry>)
    requires 0 < p <= |Closed(e)| && BraceFrom(e, p)
    requires rest != [] && ValidEntry(e) && forall f :: f in rest ==> ValidEntry(f)
    ensures ParseEntries(Tail(e, p, rest), |rest|) == rest <==>
            StraysAlike(e, p, rest[0]) && forall j :: 0 <= j < |rest| ==> rest[j] == rest[0]
  {
    hide ParseEntries, ValidEntry, Closed, Tail, Stray, BraceFrom, AlikeFrom, StraysAlike;
    var q := NextStray(e, p);
    StrayRound(e, p, rest, |rest|);
    AlikeStray(e, p, rest[0]);
    if ParseEntries(Tail(e, p, rest), |rest|) == rest {
      assert rest == [rest[0]] + rest[1..];
      ReadLate(e, NextEnd(e, q), rest, 1);
    }
    if StraysAlike(e, p, rest[0]) && forall j :: 0 <= j < |rest| ==> rest[j] == rest[0] {
      ReadsOnly(e, p, rest, rest[0], |rest|);
    }
  }

  lemma ReadBackAtTheLimit(gap: string, entries: seq<Entry>, k: nat)
    requires '{' !in gap && FirstInseparable(entries, k)
    requires forall e :: e in entries ==> ValidEntry(e)
    ensures ParseEntries(gap + PrintFrom(entries) + "]", |entries|) == entries <==> RepeatedAfter(entries, k)
  {
    hide ParseEntries, ValidEntry, Body, PrintFrom, Separated, Closed, Tail, BraceFrom, StraysAlike;
    var e, p, rest := entries[k], NextEnd(entries[k], 0), entries[k + 1..];
    SeparableAreRead(gap, entries, k, |entries|);
    SeparatedHasNoStray(e);
    RestReadBack(e, p, rest);
    SamePrefix(entries, k + 1, ParseEntries(Tail(e, p, rest), |rest|));
    assert forall j :: k < j < |entries| ==> entries[j] == rest[j - k - 1];
    assert forall j :: 0 <= j < |rest| ==> rest[j] == entries[j + k + 1];
  }

  lemma SamePrefix(entries: seq<Entry>, n: nat, read: seq<Entry>)
    requires n <= |entries|
    ensures entries[..n] + read == entries <==> read == entries[n..]
  {
    assert entries == entries[..n] + entries[n..];
    if entries[..n] + read == entries {
      assert (entries[..n] + read)[n..] == read;
    }
  }

  lemma OnlyOneFirst(entries: seq<Entry>, k: nat, l: nat)
    requires FirstInseparable(entries, k) && FirstInseparable(entries, l)
    ensures k == l
  {
    hide Separated, Body;
    if k < l {
      assert false;
    }
  }

  /** Saving and loading keeps the entries exactly when they are separable, or are
      saved by the limit. */
  lemma RoundTripIffSeparable(entries: seq<Entry>)
    requires |entries| <= MAX_ENTRIES && forall e :: e in entries ==> ValidEntry(e)
    ensures FromJson(ToJson(entries)) == entries <==> Separable(entries) || SavedByTheLimit(entries)
  {
    hide ParseEntries, ValidEntry, PrintFrom, FirstInseparable, RepeatedAfter;
    if Separable(entries) {
      SeparableRoundTrip(entries);
    } else {
      PrintAllIsPrintFrom(entries);
      if |entries| < MAX_ENTRIES {
        InseparableAreReadTooOften("[", entries, MAX_ENTRIES);
      } else {
        var k := FindInseparable(entries);
        assert FirstInseparable(entries, k);
        ReadBackAtTheLimit("[", entries, k);
        forall l: nat | FirstInseparable(entries, l)
          ensures l == k
        {
          OnlyOneFirst(entries, k, l);
        }
      }
    }
  }

  // ----- Which entries are separable -----

  lemma {:induction false} EscapeWithout(value: string, c: char)
    requires c !in value && c != '\\'
    ensures c !in Escape(value)
  {
    if value != "" {
      assert c !in value[1..];
      EscapeWithout(value[1..], c);
    }
  }

  lemma FieldWithout(key: string, value: string, c: char)
    requires c !in value && IsKey(key) && c != '\\' && c != '"' && c != ':' && !('a' <= c <= 'z')
    ensures c !in Field(key, value)
  {
    EscapeWithout(value, c);
    KeysAreLetters(key);
    assert c !in key;
  }

  predicate ClosesIn(value: string) {
    '}' in value
  }

  /** A closing brace does no harm unless an opening brace comes later in the same
      entry: entries without closing braces, and any single entry, always come back. */
  lemma NoClosingBraceIsSeparable(entries: seq<Entry>)
    requires |entries| <= 1
             || forall e :: e in entries ==>
                   !ClosesIn(e.name) && !ClosesIn(e.username) && !ClosesIn(e.password) && !ClosesIn(e.notes)
    ensures Separable(entries)
  {
    hide Body;
    if |entries| > 1 {
      forall i | 0 <= i < |entries| - 1
        ensures Separated(Body(entries[i]))
      {
        NoBraceInBody(entries[i]);
      }
    }
  }

  lemma NoBraceInBody(e: Entry)
    requires !ClosesIn(e.name) && !ClosesIn(e.username) && !ClosesIn(e.password) && !ClosesIn(e.notes)
    ensures '}' !in Body(e)
  {
    hide Field;
    FieldWithout("name", e.name, '}');
    FieldWithout("user", e.username, '}');
    FieldWithout("pass", e.password, '}');
    FieldWithout("notes", e.notes, '}');
  }

  lemma NoBraceBeforeNotes(e: Entry)
    requires !ClosesIn(e.name) && !ClosesIn(e.username) && !ClosesIn(e.password)
    ensures Offset(e, 3) <= |Closed(e)| && '}' !in Closed(e)[..Offset(e, 3)]
  {
    hide Field;
    FieldWithout("name", e.name, '}');
    FieldWithout("user", e.username, '}');
    FieldWithout("pass", e.password, '}');
    var p := Parts(e);
    ClosedIsParts(e);
    NameComesFirst(e);
    PartsSplit(p, 0);
    PartsSplit(p, 1);
    PartsSplit(p, 2);
    PartsSplit(p, 3);
    assert p[..4] == p;
    assert PartsText(p[..3]) == p[0].Text() + p[1].Text() + p[2].Text();
  }

  lemma {:induction false} PartsSplit(parts: seq<Part>, n: nat)
    requires n < |parts|
    ensures PartsText(parts[..n + 1]) == PartsText(parts[..n]) + parts[n].Text()
    decreases n
  {
    if n == 0 {
      assert parts[..1][1..] == [] && parts[..0] == [];
    } else {
      assert parts[..n + 1][1..] == parts[1..][..n] && parts[..n][1..] == parts[1..][..n - 1];
      PartsSplit(parts[1..], n - 1);
    }
  }

  /** Braces in the notes only make the parser read the next entry an extra time. */
  lemma NotesStray(e: Entry, next: Entry)
    requires !ClosesIn(e.name) && !ClosesIn(e.username) && !ClosesIn(e.password)
    ensures StraysAlike(e, NextEnd(e, 0), next)
  {
    hide Closed;
    NoBraceBeforeNotes(e);
    OffsetsAscend(e);
    var n := NextEnd(e, 0) - 1;
    forall i | 0 <= i < Offset(e, 3)
      ensures Closed(e)[i] != '}'
    {
      assert Closed(e)[..Offset(e, 3)][i] == Closed(e)[i];
    }
    assert n >= Offset(e, 3);
  }

  lemma OffsetsAscend(e: Entry)
    ensures Offset(e, 1) <= Offset(e, 2) <= Offset(e, 3)
  {
    hide Field;
    PartsSplit(Parts(e), 1);
    PartsSplit(Parts(e), 2);
  }

  const BRACED := Entry("", "", "", "}{")
  const PLAIN := Entry("", "", "", "")

  /** For example, at the limit the last entry but one can hold both braces in its
      notes: the parser reads the last entry twice, but has no room for the second. */
  lemma SavedExample(entries: seq<Entry>)
    requires |entries| == MAX_ENTRIES
    requires forall i :: 0 <= i < |entries| ==> entries[i] == if i == |entries| - 2 then BRACED else PLAIN
    ensures !Separable(entries) && FromJson(ToJson(entries)) == entries
  {
    hide Separated, Body, FromJson, ToJson, StraysAlike, ValidEntry;
    var k := |entries| - 2;
    ExampleEntries();
    NotesStray(BRACED, PLAIN);
    assert FirstInseparable(entries, k) && RepeatedAfter(entries, k);
    RoundTripIffSeparable(entries);
  }

  lemma ExampleEntries()
    ensures ValidEntry(BRACED) && ValidEntry(PLAIN)
    ensures !Separated(Body(BRACED)) && Separated(Body(PLAIN))
  {
    NoBraceInBody(PLAIN);
    var body := Body(BRACED);
    assert Escape("}{") == "}{" by { assert "}{"[1..] == "{" && "{"[1..] == "" && Escape("{") == "{"; }
    var n := |body| - 3;
    assert body[n..] == "}{\"";
    assert body[n] == body[n..][0] == '}' && body[n + 1] == body[n..][1] == '{';
  }
}
