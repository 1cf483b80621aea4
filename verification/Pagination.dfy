/** The reader's pagination: where the pages of a text begin, and what the pages show together. */
module Pagination {

  const CHARS_PER_PAGE := 380

  predicate IsSpace(c: char) {
    c == ' ' || c == '\n' || c == '\t'
  }

  /** The last white space after `start` and not after `offset`, or else `start`. */
  function WalkBack(text: string, start: nat, offset: nat): (w: nat)
    requires start <= offset < |text|
    ensures start <= w <= offset
    ensures w > start ==> IsSpace(text[w])
    ensures forall k :: w < k <= offset ==> !IsSpace(text[k])
  {
    if offset > start && !IsSpace(text[offset]) then WalkBack(text, start, offset - 1) else offset
  }

  function TotalPages(text: string): nat {
    var pages := (|text| + CHARS_PER_PAGE - 1) / CHARS_PER_PAGE;
    if pages < 1 then 1 else pages
  }

  function PageOffset(text: string, i: nat): nat {
    if i == 0 then 0
    else if i * CHARS_PER_PAGE >= |text| then |text|
    else
      var start := (i - 1) * CHARS_PER_PAGE;
      var w := WalkBack(text, start, i * CHARS_PER_PAGE);
      if w > start then w + 1 else w
  }

  /** `calculate_pagination`. */
  method CalculatePagination(text: string) returns (totalPages: nat, offsets: array<nat>)
    ensures totalPages == TotalPages(text) && offsets.Length == totalPages + 1
    ensures forall i :: 0 <= i <= totalPages ==> offsets[i] == PageOffset(text, i)
  {
    totalPages := (|text| + CHARS_PER_PAGE - 1) / CHARS_PER_PAGE;
    if totalPages < 1 {
      totalPages := 1;
    }
    offsets := new nat[totalPages + 1](_ => 0);
    for i := 1 to totalPages + 1
      invariant forall k :: 0 <= k < i ==> offsets[k] == PageOffset(text, k)
    {
      var raw := i * CHARS_PER_PAGE;
      if raw >= |text| {
        offsets[i] := |text|;
      } else {
        var start := (i - 1) * CHARS_PER_PAGE;
        var offset := raw;
        while offset > start && text[offset] != ' ' && text[offset] != '\n' && text[offset] != '\t'
          invariant start <= offset <= raw
          invariant WalkBack(text, start, raw) == WalkBack(text, start, offset)
        {
          offset := offset - 1;
        }
        if offset > start && (text[offset] == ' ' || text[offset] == '\n' || text[offset] == '\t') {
          offset := offset + 1;
        }
        offsets[i] := offset;
      }
    }
  }

  /** The text that `show_page` displays, once the page number has been brought into range. */
  function PageText(text: string, i: nat): string
    requires i < TotalPages(text)
  {
    PageOffsetBounds(text, i);
    PageOffsetBounds(text, i + 1);
    var start := PageOffset(text, i);
    var end := PageOffset(text, i + 1);
    if end < start then "" else text[start..end]
  }

  /** `show_page`, up to the display. */
  method ShowPage(text: string, totalPages: nat, offsets: array<nat>, wanted: int) returns (page: nat, shown: string)
    requires totalPages == TotalPages(text) && offsets.Length == totalPages + 1
    requires forall i :: 0 <= i <= totalPages ==> offsets[i] == PageOffset(text, i)
    ensures page == if wanted < 0 then 0 else if wanted >= totalPages then totalPages - 1 else wanted
    ensures shown == PageText(text, page)
  {
    page := if wanted < 0 then 0 else if wanted >= totalPages then totalPages - 1 else wanted;
    var start := offsets[page];
    var end := offsets[page + 1];
    PageOffsetBounds(text, page);
    PageOffsetBounds(text, page + 1);
    if end < start {
      end := start;
    }
    shown := text[start..end];
  }

  /** An offset lies at most one page before its nominal place, and at most one character behind. */
  lemma PageOffsetBounds(text: string, i: nat)
    ensures PageOffset(text, i) <= |text|
    ensures i > 0 && i * CHARS_PER_PAGE < |text| ==>
              (i - 1) * CHARS_PER_PAGE <= PageOffset(text, i) <= i * CHARS_PER_PAGE + 1
    ensures PageOffset(text, TotalPages(text)) == |text|
  {
  }

  /** A page ends right behind the last white space of its window, if there is any
      behind the window's first character; otherwise the next page begins where this
      window began. Behind the text there is nothing but its end. */
  lemma PageEnds(text: string, i: nat)
    requires i > 0
    ensures var start, raw, end := (i - 1) * CHARS_PER_PAGE, i * CHARS_PER_PAGE, PageOffset(text, i);
            if raw >= |text| then end == |text|
            else if exists k :: start < k <= raw && IsSpace(text[k]) then
              && start + 1 < end <= raw + 1
              && IsSpace(text[end - 1])
              && forall k :: end <= k <= raw ==> !IsSpace(text[k])
            else end == start
  {
  }

  /** There are just enough pages, and never none. */
  lemma PagesSuffice(text: string)
    ensures TotalPages(text) > 0 && |text| <= TotalPages(text) * CHARS_PER_PAGE
    ensures TotalPages(text) == 1 || (TotalPages(text) - 1) * CHARS_PER_PAGE < |text|
  {
  }

  /** Neighbouring offsets go back by one character at most, and forward by at most two pages and one character. */
  lemma NeighbouringOffsets(text: string, i: nat)
    requires i < TotalPages(text)
    ensures PageOffset(text, i) - 1 <= PageOffset(text, i + 1) <= PageOffset(text, i) + 2 * CHARS_PER_PAGE + 1
    ensures |PageText(text, i)| <= 2 * CHARS_PER_PAGE + 1
  {
    PageOffsetBounds(text, i);
    PageOffsetBounds(text, i + 1);
  }

  /** Every character is shown on some page. */
  lemma {:induction false} EveryCharacterIsShown(text: string, k: nat, pages: nat)
    requires k < |text| && pages <= TotalPages(text) && k < PageOffset(text, pages)
    ensures exists i :: 0 <= i < pages && PageOffset(text, i) <= k < PageOffset(text, i + 1)
  {
    if PageOffset(text, pages - 1) > k {
      EveryCharacterIsShown(text, k, pages - 1);
    }
  }

  /** Page `i` ends where white space follows it at once and the next page has none:
      then the next page begins with that white space once more. */
  predicate RepeatsAt(text: string, i: nat) {
    && 1 <= i && (i + 1) * CHARS_PER_PAGE < |text|
    && IsSpace(text[i * CHARS_PER_PAGE])
    && forall k :: i * CHARS_PER_PAGE < k <= (i + 1) * CHARS_PER_PAGE ==> !IsSpace(text[k])
  }

  lemma OffsetsDropExactlyWhereRepeated(text: string, i: nat)
    requires i < TotalPages(text)
    ensures PageOffset(text, i + 1) < PageOffset(text, i) <==> RepeatsAt(text, i)
    ensures RepeatsAt(text, i) ==> PageOffset(text, i + 1) == PageOffset(text, i) - 1
  {
    PageOffsetBounds(text, i);
    PageOffsetBounds(text, i + 1);
  }

  function AllPages(text: string, pages: nat): string
    requires pages <= TotalPages(text)
  {
    if pages == 0 then "" else AllPages(text, pages - 1) + PageText(text, pages - 1)
  }

  /** How many of the first pages end in a repetition. */
  function Repeats(text: string, pages: nat): nat {
    if pages == 0 then 0 else Repeats(text, pages - 1) + (if RepeatsAt(text, pages - 1) then 1 else 0)
  }

  /** One page more. */
  lemma PageAdded(text: string, i: nat)
    requires i < TotalPages(text)
    ensures |PageText(text, i)| == PageOffset(text, i + 1) - PageOffset(text, i) + (if RepeatsAt(text, i) then 1 else 0)
    ensures !RepeatsAt(text, i) ==>
              PageOffset(text, i) <= PageOffset(text, i + 1) <= |text|
              && text[..PageOffset(text, i)] + PageText(text, i) == text[..PageOffset(text, i + 1)]
  {
    hide RepeatsAt, PageOffset, TotalPages;
    OffsetsDropExactlyWhereRepeated(text, i);
    PageOffsetBounds(text, i);
    PageOffsetBounds(text, i + 1);
  }

  lemma {:induction false} PagesTogether(text: string, pages: nat)
    requires pages <= TotalPages(text)
    ensures |AllPages(text, pages)| == PageOffset(text, pages) + Repeats(text, pages)
    ensures Repeats(text, pages) == 0 ==>
              PageOffset(text, pages) <= |text| && AllPages(text, pages) == text[..PageOffset(text, pages)]
  {
    hide RepeatsAt, PageOffset, TotalPages, PageText;
    if pages > 0 {
      PagesTogether(text, pages - 1);
      PageAdded(text, pages - 1);
    } else {
      FirstOffset(text);
    }
  }

  lemma FirstOffset(text: string)
    ensures PageOffset(text, 0) == 0
  {
  }

  lemma {:induction false} NoRepeats(text: string, pages: nat)
    ensures Repeats(text, pages) == 0 <==> forall i :: 0 <= i < pages ==> !RepeatsAt(text, i)
  {
    if pages > 0 {
      NoRepeats(text, pages - 1);
    }
  }

  /** The pages show exactly the text, one after the other, if and only if no page
      ends right before white space that is the last for a whole page; each such
      place shows one character twice, and nothing is ever left out. */
  lemma PagesShowTheText(text: string)
    ensures AllPages(text, TotalPages(text)) == text <==> forall i :: 0 <= i < TotalPages(text) ==> !RepeatsAt(text, i)
    ensures |AllPages(text, TotalPages(text))| == |text| + Repeats(text, TotalPages(text))
  {
    hide RepeatsAt, PageOffset;
    PagesTogether(text, TotalPages(text));
    PageOffsetBounds(text, TotalPages(text));
    NoRepeats(text, TotalPages(text));
    assert text[..|text|] == text;
  }

  /** For example, two full pages whose only white space is where the first one ends. */
  lemma ShownTwice(text: string)
    requires |text| == 2 * CHARS_PER_PAGE + 1
    requires forall k :: 0 <= k < |text| ==> text[k] == if k == CHARS_PER_PAGE then ' ' else 'x'
    ensures RepeatsAt(text, 1) && AllPages(text, TotalPages(text)) != text
  {
    hide AllPages, Repeats;
    PagesShowTheText(text);
    assert text[CHARS_PER_PAGE] == ' ';
  }
}
