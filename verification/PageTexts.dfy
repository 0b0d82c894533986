/** The text of a page: items are normalised, grouped by page and joined, each page in document order. */
module PageTexts {
  import opened Basics
  import opened Text
  import opened PageMarkers

  predicate IsLineBreak(c: char) {
    '\n' <= c <= '\r' || '\U{1C}' <= c <= '\U{1E}' || c in {'\U{85}', '\U{2028}', '\U{2029}'}
  }

  /** The line boundaries of `str.splitlines`. */
  lemma LineBreaksListed(c: char)
    ensures IsLineBreak(c) <==>
              c in {'\U{0A}', '\U{0B}', '\U{0C}', '\U{0D}', '\U{1C}', '\U{1D}', '\U{1E}', '\U{85}', '\U{2028}', '\U{2029}'}
  {
  }

  /** `str.splitlines`: a carriage return and a following line feed are one break; no line follows a
      final break. */
  function SplitLines(s: string, line: string): seq<string> {
    if s == "" then (if line == "" then [] else [line])
    else if |s| >= 2 && s[0] == '\r' && s[1] == '\n' then [line] + SplitLines(s[2..], "")
    else if IsLineBreak(s[0]) then [line] + SplitLines(s[1..], "")
    else SplitLines(s[1..], line + [s[0]])
  }

  function RStrip(s: string): string {
    if s != "" && IsSpace(Python, s[|s| - 1]) then RStrip(s[..|s| - 1]) else s
  }

  function RStripAll(lines: seq<string>): seq<string> {
    if lines == [] then [] else [RStrip(lines[0])] + RStripAll(lines[1..])
  }

  function NormalizeText(s: string): string {
    Strip(Python, Join(RStripAll(SplitLines(s, "")), "\n"))
  }

  // ---------------------------------------------------------------------------------------------
  // What normalising does
  // ---------------------------------------------------------------------------------------------

  predicate NoBreak(s: string) {
    forall i | 0 <= i < |s| :: !IsLineBreak(s[i])
  }

  /** A break at the end of a line: one character, or a carriage return with its line feed. */
  predicate IsBreak(brk: string, next: string) {
    || brk == "\r\n"
    || (|brk| == 1 && IsLineBreak(brk[0]) && !(brk == "\r" && next != "" && next[0] == '\n'))
  }

  lemma {:induction false} SplitLinesCollects(a: string, s: string, line: string)
    requires NoBreak(a)
    ensures SplitLines(a + s, line) == SplitLines(s, line + a)
  {
    if a == "" {
      assert a + s == s && line + a == line;
    } else {
      assert (a + s)[0] == a[0] && (a + s)[1..] == a[1..] + s;
      SplitLinesCollects(a[1..], s, line + [a[0]]);
      assert line + a == line + [a[0]] + a[1..];
    }
  }

  /** `splitlines`: a text without a break is its own line, an empty text has no line, and every break ends one
      line and leaves the rest to be split. */
  lemma SplitLinesMeans(a: string, brk: string, rest: string)
    requires NoBreak(a)
    ensures SplitLines(a, "") == if a == "" then [] else [a]
    ensures IsBreak(brk, rest) ==> SplitLines(a + brk + rest, "") == [a] + SplitLines(rest, "")
  {
    SplitLinesCollects(a, "", "");
    assert a + "" == a && "" + a == a;
    if IsBreak(brk, rest) {
      assert a + brk + rest == a + (brk + rest);
      SplitLinesCollects(a, brk + rest, "");
      assert (brk + rest)[|brk|..] == rest;
    }
  }

  /** `rstrip` drops spaces at the end, and only those. */
  lemma {:induction false} RStripMeans(s: string) returns (n: nat)
    ensures n <= |s| && RStrip(s) == s[..n] && (forall i | n <= i < |s| :: IsSpace(Python, s[i]))
    ensures RStrip(s) == "" || !IsSpace(Python, RStrip(s)[|RStrip(s)| - 1])
  {
    n := |s|;
    if s != "" && IsSpace(Python, s[|s| - 1]) {
      n := RStripMeans(s[..|s| - 1]);
      assert s[..|s| - 1][..n] == s[..n];
      assert forall i | n <= i < |s| - 1 :: s[i] == s[..|s| - 1][i];
    } else {
      assert s[..n] == s;
    }
  }

  /** Line feeds are its only breaks, and no line of it ends in a space. */
  predicate Tidy(s: string) {
    && (forall i | 0 <= i < |s| && IsLineBreak(s[i]) :: s[i] == '\n')
    && (forall i | 0 < i < |s| && s[i] == '\n' && s[i - 1] != '\n' :: !IsSpace(Python, s[i - 1]))
  }

  predicate EndsInInk(s: string) {
    s == "" || !IsSpace(Python, s[|s| - 1])
  }

  lemma TidyPair(a: string, b: string)
    requires Tidy(a) && Tidy(b) && EndsInInk(a)
    ensures Tidy(a + "\n" + b)
  {
    var s := a + "\n" + b;
    forall i | 0 <= i < |s| && IsLineBreak(s[i])
      ensures s[i] == '\n'
    {
      assert i < |a| ==> s[i] == a[i];
      assert i > |a| ==> s[i] == b[i - |a| - 1];
    }
    forall i | 0 < i < |s| && s[i] == '\n' && s[i - 1] != '\n'
      ensures !IsSpace(Python, s[i - 1])
    {
      if i < |a| {
        assert s[i] == a[i] && s[i - 1] == a[i - 1];
      } else if i == |a| {
        assert s[i - 1] == a[|a| - 1];
      } else {
        assert s[i] == b[i - |a| - 1];
        assert i > |a| + 1 ==> s[i - 1] == b[i - |a| - 2];
      }
    }
  }

  lemma {:induction false} TidyJoin(lines: seq<string>)
    requires forall i | 0 <= i < |lines| :: Tidy(lines[i]) && EndsInInk(lines[i])
    ensures Tidy(Join(lines, "\n"))
  {
    if |lines| > 1 {
      TidyJoin(lines[1..]);
      TidyPair(lines[0], Join(lines[1..], "\n"));
    }
  }

  lemma {:induction false} LinesHaveNoBreak(s: string, line: string)
    requires NoBreak(line)
    ensures forall i | 0 <= i < |SplitLines(s, line)| :: NoBreak(SplitLines(s, line)[i])
    decreases |s|
  {
    if |s| >= 2 && s[0] == '\r' && s[1] == '\n' {
      LinesHaveNoBreak(s[2..], "");
    } else if s != "" && IsLineBreak(s[0]) {
      LinesHaveNoBreak(s[1..], "");
    } else if s != "" {
      LinesHaveNoBreak(s[1..], line + [s[0]]);
    }
  }

  lemma {:induction false} StrippedLinesTidy(lines: seq<string>)
    requires forall i | 0 <= i < |lines| :: NoBreak(lines[i])
    ensures forall i | 0 <= i < |RStripAll(lines)| :: Tidy(RStripAll(lines)[i]) && EndsInInk(RStripAll(lines)[i])
  {
    if lines != [] {
      StrippedLinesTidy(lines[1..]);
      var n := RStripMeans(lines[0]);
    }
  }

  lemma TidySlice(s: string, lo: nat, hi: nat)
    requires Tidy(s) && lo <= hi <= |s|
    ensures Tidy(s[lo..hi])
  {
    var t := s[lo..hi];
    assert forall i | 0 <= i < |t| :: t[i] == s[lo + i];
    forall i | 0 < i < |t| && t[i] == '\n' && t[i - 1] != '\n'
      ensures !IsSpace(Python, t[i - 1])
    {
      assert t[i - 1] == s[lo + i - 1];
    }
  }

  /** A normalised text has line feeds as its only breaks, no space before them, and none around it. */
  lemma NormalizedIsTidy(s: string)
    ensures Tidy(NormalizeText(s)) && (NormalizeText(s) == "" || Inked(Python, NormalizeText(s)))
  {
    var lines := RStripAll(SplitLines(s, ""));
    LinesHaveNoBreak(s, "");
    StrippedLinesTidy(SplitLines(s, ""));
    TidyJoin(lines);
    var lo, hi := StripIsSpan(Python, Join(lines, "\n"));
    TidySlice(Join(lines, "\n"), lo, hi);
  }

  lemma RStripFixes(s: string)
    requires EndsInInk(s)
    ensures RStrip(s) == s
  {
  }

  lemma JoinStrippedCons(line: string, lines: seq<string>)
    requires lines != []
    ensures Join(RStripAll([line] + lines), "\n") == RStrip(line) + "\n" + Join(RStripAll(lines), "\n")
  {
    assert ([line] + lines)[1..] == lines;
    var stripped := RStripAll(lines);
    assert ([RStrip(line)] + stripped)[1..] == stripped;
  }

  /** What is left to split from `k` on, with the line begun at `a`. */
  function Pending(t: string, a: nat, k: nat): seq<string>
    requires a <= k <= |t|
  {
    SplitLines(t[k..], t[a..k])
  }

  lemma PendingEnd(t: string, a: nat)
    requires a <= |t| && EndsInInk(t)
    ensures Join(RStripAll(Pending(t, a, |t|)), "\n") == t[a..]
    ensures a < |t| ==> Pending(t, a, |t|) != []
  {
    assert t[|t|..] == "" && t[a..|t|] == t[a..];
    assert EndsInInk(t[a..]);
    RStripFixes(t[a..]);
  }

  lemma PendingCharacter(t: string, a: nat, k: nat)
    requires a <= k < |t| && !IsLineBreak(t[k])
    ensures Pending(t, a, k) == Pending(t, a, k + 1)
    ensures NoBreak(t[a..k]) ==> NoBreak(t[a..k + 1])
  {
    assert t[k..][1..] == t[k + 1..] && t[a..k] + [t[k]] == t[a..k + 1];
  }

  lemma PendingBreak(t: string, a: nat, k: nat)
    requires a <= k < |t| && t[k] == '\n'
    ensures Pending(t, a, k) == [t[a..k]] + Pending(t, k + 1, k + 1)
    ensures t[a..] == t[a..k] + "\n" + t[k + 1..] && NoBreak(t[k + 1..k + 1])
  {
    assert t[k..][1..] == t[k + 1..] && t[k + 1..k + 1] == "";
  }

  lemma LineBeforeBreak(t: string, a: nat, k: nat)
    requires Tidy(t) && EndsInInk(t) && a <= k < |t| && NoBreak(t[a..k]) && IsLineBreak(t[k])
    ensures t[k] == '\n' && EndsInInk(t[a..k]) && k + 1 < |t|
  {
    if a < k {
      assert t[a..k][k - 1 - a] == t[k - 1];
    }
  }

  /** Splitting a tidy text into lines and joining them again changes nothing. */
  lemma {:induction false} TidyReassembles(t: string, a: nat, k: nat)
    requires Tidy(t) && EndsInInk(t) && a <= k <= |t| && NoBreak(t[a..k])
    ensures Join(RStripAll(Pending(t, a, k)), "\n") == t[a..]
    ensures a < |t| ==> Pending(t, a, k) != []
    decreases |t| - k
  {
    if k == |t| {
      PendingEnd(t, a);
    } else if IsLineBreak(t[k]) {
      LineBeforeBreak(t, a, k);
      PendingBreak(t, a, k);
      TidyReassembles(t, k + 1, k + 1);
      JoinStrippedCons(t[a..k], Pending(t, k + 1, k + 1));
      RStripFixes(t[a..k]);
    } else {
      PendingCharacter(t, a, k);
      TidyReassembles(t, a, k + 1);
    }
  }

  /** A text that is tidy already is left alone. */
  lemma TidyIsFixed(s: string)
    requires Tidy(s) && (s == "" || Inked(Python, s))
    ensures NormalizeText(s) == s
  {
    assert s[0..0] == "" && s[0..] == s;
    TidyReassembles(s, 0, 0);
    if s != "" {
      StripFixesInked(Python, s);
    }
  }

  /** A document item with the page of its first provenance record, if any. */
  datatype Item = Item(text: string, page: Option<nat>)

  /** The normalised item texts of one page, in document order. */
  function LinesOf(items: seq<Item>, n: nat): seq<string> {
    if items == [] then []
    else
      var last := items[|items| - 1];
      var text := NormalizeText(last.text);
      LinesOf(items[..|items| - 1], n) + (if text != "" && last.page == Some(n) then [text] else [])
  }

  function BodyOf(items: seq<Item>, n: nat): string {
    BodyFrom(LinesOf(items, n))
  }

  lemma {:induction false} Minimum(keys: set<nat>) returns (m: nat)
    requires keys != {}
    ensures m in keys && forall k | k in keys :: m <= k
    decreases keys
  {
    var some :| some in keys;
    m := some;
    if keys != {some} {
      var rest := Minimum(keys - {some});
      m := if rest < some then rest else some;
      assert forall k | k in keys :: k == some || k in keys - {some};
    }
  }

  /** The grouping loop: the normalised texts of each page, in a dictionary. */
  method GroupLines(items: seq<Item>) returns (pageLines: map<nat, seq<string>>)
    ensures forall n: nat :: (if n in pageLines then pageLines[n] else []) == LinesOf(items, n)
  {
    pageLines := map[];
    for i := 0 to |items|
      invariant forall n: nat :: (if n in pageLines then pageLines[n] else []) == LinesOf(items[..i], n)
    {
      assert items[..i + 1][..i] == items[..i];
      var text := NormalizeText(items[i].text);
      if text != "" && items[i].page.Some? {
        var n := items[i].page.value;
        pageLines := pageLines[n := (if n in pageLines then pageLines[n] else []) + [text]];
      }
    }
    assert items[..|items|] == items;
  }

  function BodyFrom(lines: seq<string>): (body: string)
    ensures body != "" ==> Inked(Python, body)
  {
    NormalizeText(Join(lines, "\n"))
  }

  /** What a document prints: every page with text, in ascending order, with its normalised text. */
  ghost predicate PrintsItems(pages: seq<Page>, items: seq<Item>) {
    && Increasing(pages) && Printable(pages)
    && (forall k | 0 <= k < |pages| :: pages[k].body == BodyOf(items, pages[k].number))
    && (forall n: nat | BodyOf(items, n) != "" :: HasPage(pages, n))
  }

  /** Groups the items by page and prints the pages in ascending order; pages whose text normalises to
      nothing are dropped. */
  method CollectPageChunks(items: seq<Item>) returns (pages: seq<Page>)
    ensures PrintsItems(pages, items)
  {
    var pageLines := GroupLines(items);
    pages := PrintPages(pageLines, BodyFrom);
    forall k | 0 <= k < |pages|
      ensures pages[k].body == BodyOf(items, pages[k].number) && Inked(Python, pages[k].body)
    {
      assert pages[k].body == BodyFrom(LinesOf(items, pages[k].number));
    }
    forall n: nat | BodyOf(items, n) != ""
      ensures HasPage(pages, n)
    {
      NoLinesNoBody();
      assert n in pageLines && BodyFrom(pageLines[n]) == BodyOf(items, n);
    }
  }

  lemma NoLinesNoBody()
    ensures BodyFrom([]) == ""
  {
    assert SplitLines("", "") == [];
  }

  /** The loop over the sorted page numbers, for any way of normalising a page's lines. */
  method PrintPages(pageLines: map<nat, seq<string>>, render: seq<string> -> string) returns (pages: seq<Page>)
    ensures Increasing(pages)
    ensures forall k | 0 <= k < |pages| ::
              pages[k].number in pageLines && pages[k].body == render(pageLines[pages[k].number]) && pages[k].body != ""
    ensures forall n | n in pageLines && render(pageLines[n]) != "" :: HasPage(pages, n)
  {
    pages := [];
    var pending := pageLines.Keys;
    while pending != {}
      invariant pending <= pageLines.Keys && Increasing(pages)
      invariant forall k, n | 0 <= k < |pages| && n in pending :: pages[k].number < n
      invariant forall k | 0 <= k < |pages| ::
        pages[k].number in pageLines && pages[k].body == render(pageLines[pages[k].number]) && pages[k].body != ""
      invariant forall n | n in pageLines && n !in pending && render(pageLines[n]) != "" :: HasPage(pages, n)
      decreases pending
    {
      ghost var least := Minimum(pending);
      var n :| n in pending && forall k | k in pending :: n <= k;
      var body := render(pageLines[n]);
      if body != "" {
        HasPageSnoc(pages, Page(n, body));
        pages := pages + [Page(n, body)];
      }
      pending := pending - {n};
    }
  }

  predicate HasPage(pages: seq<Page>, n: nat) {
    exists k :: 0 <= k < |pages| && pages[k].number == n
  }

  lemma HasPageSnoc(pages: seq<Page>, p: Page)
    ensures HasPage(pages + [p], p.number)
    ensures forall n | HasPage(pages, n) :: HasPage(pages + [p], n)
  {
    assert (pages + [p])[|pages|] == p;
    forall n | HasPage(pages, n)
      ensures HasPage(pages + [p], n)
    {
      var k :| 0 <= k < |pages| && pages[k].number == n;
      assert (pages + [p])[k] == pages[k];
    }
  }

  /** Pages in ascending order are determined by their numbers and what each number prints. */
  lemma {:induction false} IncreasingPagesEqual(p: seq<Page>, q: seq<Page>)
    requires Increasing(p) && Increasing(q)
    requires forall n: nat :: HasPage(p, n) <==> HasPage(q, n)
    requires forall i, j | 0 <= i < |p| && 0 <= j < |q| && p[i].number == q[j].number :: p[i] == q[j]
    ensures p == q
  {
    if p == [] || q == [] {
      assert p != [] ==> HasPage(q, p[0].number);
      assert q != [] ==> HasPage(p, q[0].number);
    } else {
      var m, n := |p| - 1, |q| - 1;
      assert HasPage(q, p[m].number) && HasPage(p, q[n].number);
      assert p[m] == q[n];
      forall k: nat
        ensures HasPage(p[..m], k) <==> HasPage(p, k) && k != p[m].number
        ensures HasPage(q[..n], k) <==> HasPage(q, k) && k != q[n].number
      {
        HasPageBefore(p, k);
        HasPageBefore(q, k);
      }
      IncreasingPagesEqual(p[..m], q[..n]);
      assert p == p[..m] + [p[m]] && q == q[..n] + [q[n]];
    }
  }

  lemma HasPageBefore(p: seq<Page>, k: nat)
    requires p != [] && Increasing(p)
    ensures HasPage(p[..|p| - 1], k) <==> HasPage(p, k) && k != p[|p| - 1].number
  {
    var m := |p| - 1;
    if HasPage(p, k) && k != p[m].number {
      var i :| 0 <= i < |p| && p[i].number == k;
      assert p[..m][i].number == k;
    }
  }

  /** A document has only one way to print its items, whatever order the dictionary keeps its pages in. */
  lemma PagesDetermined(p: seq<Page>, q: seq<Page>, items: seq<Item>)
    requires PrintsItems(p, items) && PrintsItems(q, items)
    ensures p == q
  {
    forall n: nat
      ensures HasPage(p, n) <==> HasPage(q, n)
    {
    }
    IncreasingPagesEqual(p, q);
  }

  /** The pages of a document: those its items print, or the exported text as page 1 when there are none. */
  ghost predicate DocumentPages(pages: seq<Page>, items: seq<Item>, exported: string) {
    if exists n: nat :: BodyOf(items, n) != "" then PrintsItems(pages, items)
    else pages == if NormalizeText(exported) == "" then [] else [Page(1, NormalizeText(exported))]
  }

  method ParseDocument(items: seq<Item>, exported: string) returns (text: string)
    ensures exists pages :: DocumentPages(pages, items, exported) && text == Render(pages)
  {
    var pages := CollectPageChunks(items);
    assert pages != [] ==> BodyOf(items, pages[0].number) != "";
    if pages == [] {
      var fallback := NormalizeText(exported);
      if fallback != "" {
        pages := [Page(1, fallback)];
      }
    }
    assert DocumentPages(pages, items, exported);
    text := Render(pages);
  }

  /** The markers of a parsed document read back exactly when no page of it holds a marker of another page. */
  lemma ParsedPagesReadBack(pages: seq<Page>, items: seq<Item>, exported: string)
    requires DocumentPages(pages, items, exported)
    ensures ReadsBack(pages) <==> forall k | 0 <= k < |pages| :: OwnMarkers(pages[k])
  {
    assert Printable(pages) by {
      if !exists n: nat :: BodyOf(items, n) != "" {
        assert pages != [] ==> pages[0].body == NormalizeText(exported);
      }
    }
    ReadsBackExactlyWhen(pages);
  }

  // ---------------------------------------------------------------------------------------------
  // What a page says
  // ---------------------------------------------------------------------------------------------

  /** The normalised texts of a page, one after another in document order. */
  lemma {:induction false} LinesOfCons(first: Item, rest: seq<Item>, n: nat)
    ensures LinesOf([first] + rest, n)
         == (if first.page == Some(n) && NormalizeText(first.text) != "" then [NormalizeText(first.text)] else []) + LinesOf(rest, n)
  {
    var items := [first] + rest;
    var own := if first.page == Some(n) && NormalizeText(first.text) != "" then [NormalizeText(first.text)] else [];
    if rest == [] {
      assert items[..0] == [] && own + [] == own;
    } else {
      var k := |rest| - 1;
      assert items[..k + 1] == [first] + rest[..k];
      LinesOfCons(first, rest[..k], n);
      var last := NormalizeText(rest[k].text);
      Regroup(own, LinesOf(rest[..k], n), if last != "" && rest[k].page == Some(n) then [last] else []);
    }
  }

  lemma {:induction false} LinesAreTidy(items: seq<Item>, n: nat)
    ensures forall i | 0 <= i < |LinesOf(items, n)| :: Tidy(LinesOf(items, n)[i]) && Inked(Python, LinesOf(items, n)[i])
  {
    if items != [] {
      LinesAreTidy(items[..|items| - 1], n);
      NormalizedIsTidy(items[|items| - 1].text);
    }
  }

  lemma {:induction false} InkedJoin(lines: seq<string>)
    requires lines != [] && forall i | 0 <= i < |lines| :: Inked(Python, lines[i])
    ensures Inked(Python, Join(lines, "\n"))
  {
    if |lines| > 1 {
      InkedJoin(lines[1..]);
      InkedPair(lines[0], Join(lines[1..], "\n"));
    }
  }

  lemma InkedPair(a: string, b: string)
    requires Inked(Python, a) && Inked(Python, b)
    ensures Inked(Python, a + "\n" + b)
  {
    var s := a + "\n" + b;
    assert s[0] == a[0] && s[|s| - 1] == b[|b| - 1];
  }

  /** A page's text is the normalised texts of its items, in document order, one below the other. */
  lemma BodyIsItsLines(items: seq<Item>, n: nat)
    ensures BodyOf(items, n) == Join(LinesOf(items, n), "\n")
  {
    var lines := LinesOf(items, n);
    LinesAreTidy(items, n);
    TidyJoin(lines);
    if lines != [] {
      InkedJoin(lines);
    }
    TidyIsFixed(Join(lines, "\n"));
  }

  /** The non-space characters of a page's items, in document order. */
  function InkOn(items: seq<Item>, n: nat): string {
    if items == [] then ""
    else (if items[0].page == Some(n) then Ink(items[0].text) else "") + InkOn(items[1..], n)
  }

  function InkOfLines(lines: seq<string>): string {
    if lines == [] then "" else Ink(lines[0]) + InkOfLines(lines[1..])
  }

  lemma {:induction false} InkOfJoin(lines: seq<string>)
    ensures Ink(Join(lines, "\n")) == InkOfLines(lines)
  {
    if |lines| == 1 {
      assert Ink(lines[0]) + InkOfLines(lines[1..]) == Ink(lines[0]);
    } else if |lines| > 1 {
      var rest := Join(lines[1..], "\n");
      InkOfJoin(lines[1..]);
      InkConcat(lines[0] + "\n", rest);
      InkConcat(lines[0], "\n");
      assert Ink("\n") == "" && Ink(lines[0]) + "" == Ink(lines[0]);
    }
  }

  lemma InkMoves(line: string, s: string)
    requires s != ""
    ensures Ink(line + [s[0]]) + Ink(s[1..]) == Ink(line) + Ink(s)
  {
    InkConcat(line, [s[0]]);
    InkConcat([s[0]], s[1..]);
    assert [s[0]] + s[1..] == s;
    Regroup(Ink(line), Ink([s[0]]), Ink(s[1..]));
  }

  lemma InkAfterBreak(line: string, s: string, k: nat)
    requires k <= |s| && forall i | 0 <= i < k :: IsSpace(Python, s[i])
    requires InkOfLines(SplitLines(s[k..], "")) == Ink("") + Ink(s[k..])
    ensures InkOfLines([line] + SplitLines(s[k..], "")) == Ink(line) + Ink(s)
  {
    InkOfBreak(line, SplitLines(s[k..], ""));
    assert s == s[..k] + s[k..];
    InkConcat(s[..k], s[k..]);
    NoInk(s[..k]);
  }

  lemma {:induction false} NoInk(s: string)
    requires forall i | 0 <= i < |s| :: IsSpace(Python, s[i])
    ensures Ink(s) == ""
  {
    if s != "" {
      NoInk(s[1..]);
    }
  }

  lemma {:induction false} InkOfSplit(s: string, line: string)
    ensures InkOfLines(SplitLines(s, line)) == Ink(line) + Ink(s)
    decreases |s|
  {
    if s == "" {
      assert Ink(line) + "" == Ink(line);
    } else if |s| >= 2 && s[0] == '\r' && s[1] == '\n' {
      InkOfSplit(s[2..], "");
      InkAfterBreak(line, s, 2);
    } else if IsLineBreak(s[0]) {
      InkOfSplit(s[1..], "");
      InkAfterBreak(line, s, 1);
    } else {
      InkOfSplit(s[1..], line + [s[0]]);
      InkMoves(line, s);
    }
  }

  lemma InkOfBreak(line: string, rest: seq<string>)
    ensures InkOfLines([line] + rest) == Ink(line) + InkOfLines(rest)
  {
    assert ([line] + rest)[1..] == rest;
  }

  lemma {:induction false} InkOfRStrip(s: string)
    ensures Ink(RStrip(s)) == Ink(s)
  {
    if s != "" && IsSpace(Python, s[|s| - 1]) {
      var init := s[..|s| - 1];
      InkOfRStrip(init);
      assert s == init + [s[|s| - 1]];
      InkConcat(init, [s[|s| - 1]]);
    }
  }

  lemma {:induction false} InkOfStrippedLines(lines: seq<string>)
    ensures InkOfLines(RStripAll(lines)) == InkOfLines(lines)
  {
    if lines != [] {
      InkOfStrippedLines(lines[1..]);
      InkOfRStrip(lines[0]);
      InkOfBreak(RStrip(lines[0]), RStripAll(lines[1..]));
    }
  }

  /** Normalising drops no character but spaces. */
  lemma NormalizeKeepsInk(s: string)
    ensures Ink(NormalizeText(s)) == Ink(s)
  {
    var lines := SplitLines(s, "");
    InkOfStrip(Join(RStripAll(lines), "\n"));
    InkOfJoin(RStripAll(lines));
    InkOfStrippedLines(lines);
    InkOfSplit(s, "");
    assert "" + Ink(s) == Ink(s);
  }

  lemma {:induction false} InkOfItems(items: seq<Item>, n: nat)
    ensures InkOfLines(LinesOf(items, n)) == InkOn(items, n)
  {
    if items != [] {
      var first, rest := items[0], items[1..];
      assert items == [first] + rest;
      InkOfItems(rest, n);
      LinesOfCons(first, rest, n);
      NormalizeKeepsInk(first.text);
      if first.page == Some(n) {
        if NormalizeText(first.text) != "" {
          InkOfBreak(NormalizeText(first.text), LinesOf(rest, n));
        } else {
          assert [] + LinesOf(rest, n) == LinesOf(rest, n);
        }
      } else {
        assert [] + LinesOf(rest, n) == LinesOf(rest, n);
      }
    }
  }

  /** Spaces aside, a page says what its items say, in document order: nothing is lost, repeated or moved. */
  lemma BodySaysItsItems(items: seq<Item>, n: nat)
    ensures Ink(BodyOf(items, n)) == InkOn(items, n)
  {
    BodyIsItsLines(items, n);
    InkOfJoin(LinesOf(items, n));
    InkOfItems(items, n);
  }

  // ---------------------------------------------------------------------------------------------
  // Where an item stands on its page
  // ---------------------------------------------------------------------------------------------

  predicate Counts(item: Item, n: nat) {
    item.page == Some(n) && NormalizeText(item.text) != ""
  }

  /** `at` gives each item of the page a place in `body`: its normalised text stands there, and after everything
      that the items before it say. */
  ghost predicate Placed(items: seq<Item>, n: nat, body: string, at: seq<nat>) {
    && |at| == |items|
    && (forall i | 0 <= i < |items| && Counts(items[i], n) :: OccursAt(NormalizeText(items[i].text), body, at[i]))
    && (forall i, j | 0 <= i < j < |items| && Counts(items[i], n) && Counts(items[j], n) ::
          at[i] + |NormalizeText(items[i].text)| < at[j])
  }

  lemma JoinSnoc(lines: seq<string>, last: string)
    ensures Join(lines + [last], "\n") == if lines == [] then last else Join(lines, "\n") + "\n" + last
  {
    if lines == [] {
      assert lines + [last] == [last];
    } else {
      JoinSnocMore(lines, last);
    }
  }

  lemma {:induction false} JoinSnocMore(lines: seq<string>, last: string)
    requires lines != []
    ensures Join(lines + [last], "\n") == Join(lines, "\n") + "\n" + last
  {
    assert (lines + [last])[1..] == lines[1..] + [last];
    if |lines| > 1 {
      JoinSnocMore(lines[1..], last);
      assert lines[0] + "\n" + (Join(lines[1..], "\n") + "\n" + last)
          == lines[0] + "\n" + Join(lines[1..], "\n") + "\n" + last;
    } else {
      assert lines[1..] + [last] == [last];
    }
  }

  lemma OccursInPrefix(x: string, y: string, more: string, i: nat)
    requires OccursAt(x, y, i)
    ensures OccursAt(x, y + more, i)
  {
    assert (y + more)[i..i + |x|] == y[i..i + |x|];
  }

  lemma OccursAtEnd(x: string, y: string)
    ensures OccursAt(x, y + x, |y|)
  {
    assert (y + x)[|y|..|y| + |x|] == x;
  }

  lemma {:induction false} ItemsPlaced(items: seq<Item>, n: nat) returns (at: seq<nat>)
    ensures Placed(items, n, Join(LinesOf(items, n), "\n"), at)
  {
    if items == [] {
      at := [];
    } else {
      var k := |items| - 1;
      var before := ItemsPlaced(items[..k], n);
      var more := BodyGrows(items, n);
      at := PlaceNext(items, n, Join(LinesOf(items[..k], n), "\n"), more, before);
    }
  }

  /** The page grows at its end. */
  lemma BodyGrows(items: seq<Item>, n: nat) returns (more: string)
    requires items != []
    ensures var last := items[|items| - 1];
            var above, body := Join(LinesOf(items[..|items| - 1], n), "\n"), Join(LinesOf(items, n), "\n");
            && body == above + more
            && (Counts(last, n) ==>
                  var text := NormalizeText(last.text);
                  && |text| <= |more| && OccursAt(text, body, |body| - |text|)
                  && (above == "" || |more| == |text| + 1))
  {
    var k := |items| - 1;
    var lines, text := LinesOf(items[..k], n), NormalizeText(items[k].text);
    var above := Join(lines, "\n");
    more := "";
    if Counts(items[k], n) {
      JoinSnoc(lines, text);
      if lines == [] {
        more := text;
        assert above + more == text;
      } else {
        more := "\n" + text;
        assert above + more == above + "\n" + text;
      }
      var lead := if lines == [] then "" else above + "\n";
      assert above + more == lead + text;
      OccursAtEnd(text, lead);
    } else {
      assert lines + [] == lines && above + "" == above;
    }
  }

  lemma PlaceNext(items: seq<Item>, n: nat, above: string, more: string, before: seq<nat>) returns (at: seq<nat>)
    requires items != [] && Placed(items[..|items| - 1], n, above, before)
    requires Counts(items[|items| - 1], n) ==>
               var text := NormalizeText(items[|items| - 1].text);
               && |text| <= |more| && OccursAt(text, above + more, |above| + |more| - |text|)
               && (above == "" || |more| == |text| + 1)
    ensures Placed(items, n, above + more, at)
  {
    var k := |items| - 1;
    at := before + [if Counts(items[k], n) then |above| + |more| - |NormalizeText(items[k].text)| else 0];
    forall i | 0 <= i < k && Counts(items[i], n)
      ensures OccursAt(NormalizeText(items[i].text), above + more, at[i])
      ensures at[i] + |NormalizeText(items[i].text)| <= |above|
    {
      assert items[..k][i] == items[i];
      OccursInPrefix(NormalizeText(items[i].text), above, more, before[i]);
    }
    forall i, j | 0 <= i < j < k && Counts(items[i], n) && Counts(items[j], n)
      ensures at[i] + |NormalizeText(items[i].text)| < at[j]
    {
      assert items[..k][i] == items[i] && items[..k][j] == items[j];
    }
  }

  /** Every item with text stands whole on its page, below the items before it. */
  lemma ItemsStandInOrder(items: seq<Item>, n: nat) returns (at: seq<nat>)
    ensures Placed(items, n, BodyOf(items, n), at)
  {
    BodyIsItsLines(items, n);
    at := ItemsPlaced(items, n);
  }

  // ---------------------------------------------------------------------------------------------
  // What a document says
  // ---------------------------------------------------------------------------------------------

  /** Page by page: the marker and the items of the page. */
  function InkOfDocument(pages: seq<Page>, items: seq<Item>): string {
    if pages == [] then ""
    else Ink("[Page " + Decimal(pages[0].number) + "]") + InkOn(items, pages[0].number) + InkOfDocument(pages[1..], items)
  }

  lemma {:induction false} InkOfChunks(pages: seq<Page>, items: seq<Item>)
    requires forall k | 0 <= k < |pages| :: pages[k].body == BodyOf(items, pages[k].number)
    ensures Ink(Join(ChunksOf(pages), "\n\n")) == InkOfDocument(pages, items)
  {
    if pages != [] {
      var p := pages[0];
      InkOfChunks(pages[1..], items);
      InkOfChunk(p);
      BodySaysItsItems(items, p.number);
      if |pages| == 1 {
        assert ChunksOf(pages) == [Chunk(p)];
        assert InkOfDocument(pages[1..], items) == "";
      } else {
        JoinedUnfolds(pages);
        InkOfJoined(Chunk(p), Join(ChunksOf(pages[1..]), "\n\n"));
      }
    }
  }

  lemma JoinedUnfolds(pages: seq<Page>)
    requires |pages| > 1
    ensures Join(ChunksOf(pages), "\n\n") == Chunk(pages[0]) + "\n\n" + Join(ChunksOf(pages[1..]), "\n\n")
  {
    assert ChunksOf(pages)[1..] == ChunksOf(pages[1..]);
  }

  lemma InkOfChunk(p: Page)
    ensures Ink(Chunk(p)) == Ink("[Page " + Decimal(p.number) + "]") + Ink(p.body)
  {
    var header := Header(p.number);
    InkConcat(header + "\n", p.body);
    InkConcat(header, "\n");
    NoInk("\n");
    assert Ink(header) + "" == Ink(header);
  }

  lemma InkOfJoined(a: string, b: string)
    ensures Ink(a + "\n\n" + b) == Ink(a) + Ink(b)
  {
    InkConcat(a + "\n\n", b);
    InkConcat(a, "\n\n");
    NoInk("\n\n");
    assert Ink(a) + "" == Ink(a);
  }

  /** The text of a document says, page after page in ascending order, the marker and then the page's items in
      document order. */
  lemma DocumentSaysItsItems(pages: seq<Page>, items: seq<Item>)
    requires PrintsItems(pages, items)
    ensures Ink(Render(pages)) == InkOfDocument(pages, items)
  {
    InkOfStrip(Join(ChunksOf(pages), "\n\n"));
    InkOfChunks(pages, items);
  }

  lemma {:induction false} NothingSaid(items: seq<Item>, n: nat)
    requires forall i | 0 <= i < |items| && items[i].page.Some? :: Ink(items[i].text) == ""
    ensures InkOn(items, n) == ""
  {
    if items != [] {
      NothingSaid(items[1..], n);
    }
  }

  lemma BlankWithoutInk(s: string)
    ensures NormalizeText(s) == "" <==> Ink(s) == ""
  {
    NormalizeKeepsInk(s);
  }

  /** A document without a page text is the exported one, on page 1, or empty when that says nothing. */
  lemma FallbackSaysExport(pages: seq<Page>, items: seq<Item>, exported: string)
    requires DocumentPages(pages, items, exported) && forall i | 0 <= i < |items| && items[i].page.Some? :: Ink(items[i].text) == ""
    ensures Ink(Render(pages)) == if Ink(exported) == "" then "" else Ink("[Page " + Decimal(1) + "]") + Ink(exported)
  {
    forall n: nat
      ensures BodyOf(items, n) == ""
    {
      NothingSaid(items, n);
      BodySaysItsItems(items, n);
    }
    BlankWithoutInk(exported);
    NormalizeKeepsInk(exported);
    if Ink(exported) != "" {
      var p := Page(1, NormalizeText(exported));
      assert ChunksOf([p]) == [Chunk(p)];
      InkOfStrip(Chunk(p));
      InkOfChunk(p);
    }
  }
}
