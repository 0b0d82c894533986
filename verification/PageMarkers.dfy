/** Page markers: the parser prints `[Page N]` in front of each page, the provider reads the markers
    back to find the page of a character position. */
module PageMarkers {
  import opened Basics
  import opened Text

  // ---------------------------------------------------------------------------------------------
  // Decimal numerals
  // ---------------------------------------------------------------------------------------------

  predicate IsDigit(c: char) {
    '0' <= c <= '9'
  }

  function DigitValue(c: char): nat
    requires IsDigit(c)
  {
    c as int - '0' as int
  }

  function Decimal(n: nat): (s: string)
    ensures s != "" && forall i | 0 <= i < |s| :: IsDigit(s[i])
  {
    var last := ('0' as int + n % 10) as char;
    if n < 10 then [last] else Decimal(n / 10) + [last]
  }

  function Parse(s: string): nat
    requires forall i | 0 <= i < |s| :: IsDigit(s[i])
  {
    if s == "" then 0 else 10 * Parse(s[..|s| - 1]) + DigitValue(s[|s| - 1])
  }

  lemma {:induction false} ParseDecimal(n: nat)
    ensures Parse(Decimal(n)) == n
  {
    var s := Decimal(n);
    if n < 10 {
      assert s[..0] == "";
    } else {
      ParseDecimal(n / 10);
      assert s[..|s| - 1] == Decimal(n / 10);
    }
  }

  // ---------------------------------------------------------------------------------------------
  // Reading markers
  // ---------------------------------------------------------------------------------------------

  /** Where the run of digits that begins at `i` ends. */
  function DigitsEnd(s: string, i: nat): (e: nat)
    requires i <= |s|
    ensures i <= e <= |s|
    ensures forall k | i <= k < e :: IsDigit(s[k])
    ensures e < |s| ==> !IsDigit(s[e])
    decreases |s| - i
  {
    if i < |s| && IsDigit(s[i]) then DigitsEnd(s, i + 1) else i
  }

  datatype Match = Match(start: nat, end: nat, page: nat)

  predicate OpensAt(s: string, i: nat) {
    i + 6 <= |s| && s[i] == '[' && s[i + 1] == 'P' && s[i + 2] == 'a' && s[i + 3] == 'g' && s[i + 4] == 'e' && s[i + 5] == ' '
  }

  /** The marker pattern at one position: the opening, at least one digit, the closing bracket. */
  function MatchAt(s: string, i: nat): (m: Option<Match>)
    ensures m.Some? ==> m.value.start == i && i + 7 < m.value.end <= |s| && s[i] == '['
  {
    if !OpensAt(s, i) then None
    else
      var e := DigitsEnd(s, i + 6);
      if e == i + 6 || e == |s| || s[e] != ']' then None
      else Some(Match(i, e + 1, Parse(s[i + 6..e])))
  }

  /** The page of the last marker that begins at or before `pos`. */
  function PageAt(s: string, pos: int): Option<nat>
    decreases if pos < 0 then 0 else pos + 1
  {
    if pos < 0 then None
    else if MatchAt(s, pos).Some? then Some(MatchAt(s, pos).value.page)
    else PageAt(s, pos - 1)
  }

  lemma {:induction false} NoMarkerBetween(s: string, lo: int, hi: int)
    requires lo <= hi && forall i: nat | lo < i <= hi :: MatchAt(s, i).None?
    ensures PageAt(s, hi) == PageAt(s, lo)
    decreases hi - lo
  {
    if lo < hi && hi >= 0 {
      NoMarkerBetween(s, lo, hi - 1);
    }
  }

  /** Inside a marker no other marker begins, so scanning may jump to its end. */
  lemma MarkersDoNotOverlap(s: string, i: nat, k: nat)
    requires MatchAt(s, i).Some? && i < k < MatchAt(s, i).value.end
    ensures MatchAt(s, k).None?
  {
    var e := DigitsEnd(s, i + 6);
    assert k < i + 6 || k >= i + 6;
    if k == e {
      assert s[k] == ']';
    } else if k >= i + 6 {
      assert IsDigit(s[k]);
    }
  }

  /** The scan of the source: non-overlapping matches from the left, stopping past the position. */
  method InferPageReference(text: string, startPos: Option<int>) returns (page: Option<nat>)
    ensures page == if startPos.None? then None else PageAt(text, startPos.value)
  {
    if startPos.None? {
      return None;
    }
    var pos := startPos.value;
    var marker: Option<Match> := None;
    var i := 0;
    while i < |text|
      invariant 0 <= i <= |text|
      invariant marker.None? ==> forall k: nat | k < i :: MatchAt(text, k).None?
      invariant marker.Some? ==>
        && marker.value.start < i && marker.value.start <= pos && MatchAt(text, marker.value.start) == marker
        && forall k: nat | marker.value.start < k < i :: MatchAt(text, k).None?
      decreases |text| - i
    {
      var m := MatchAt(text, i);
      if m.None? {
        i := i + 1;
      } else {
        if m.value.start > pos {
          break;
        }
        marker := m;
        forall k: nat | i < k < m.value.end
          ensures MatchAt(text, k).None?
        {
          MarkersDoNotOverlap(text, i, k);
        }
        i := m.value.end;
      }
    }
    if marker.None? {
      NoMarkerBetween(text, -1, if pos < -1 then -1 else pos);
      return None;
    }
    NoMarkerBetween(text, marker.value.start, pos);
    return Some(marker.value.page);
  }

  // ---------------------------------------------------------------------------------------------
  // Markers and line breaks
  // ---------------------------------------------------------------------------------------------

  lemma {:induction false} DigitsEndBefore(a: string, b: string, i: nat)
    requires i <= |a|
    ensures DigitsEnd(a + "\n" + b, i) == DigitsEnd(a, i)
    decreases |a| - i
  {
    var s := a + "\n" + b;
    assert s[|a|] == '\n';
    if i < |a| {
      assert s[i] == a[i];
      if IsDigit(a[i]) {
        DigitsEndBefore(a, b, i + 1);
      }
    }
  }

  lemma {:induction false} DigitsEndAfter(a: string, b: string, i: nat)
    requires i <= |b|
    ensures DigitsEnd(a + "\n" + b, |a| + 1 + i) == |a| + 1 + DigitsEnd(b, i)
    decreases |b| - i
  {
    var s := a + "\n" + b;
    if i < |b| {
      assert s[|a| + 1 + i] == b[i];
      if IsDigit(b[i]) {
        DigitsEndAfter(a, b, i + 1);
      }
    }
  }

  /** A marker holds no line break, so it lies on one side of every line break. */
  lemma MatchBefore(a: string, b: string, i: nat)
    requires i <= |a|
    ensures MatchAt(a + "\n" + b, i) == MatchAt(a, i)
  {
    var s := a + "\n" + b;
    assert s[|a|] == '\n';
    assert forall k | 0 <= k < |a| :: s[k] == a[k];
    if OpensAt(s, i) {
      assert forall k | i <= k < i + 6 :: s[k] != '\n';
      DigitsEndBefore(a, b, i + 6);
      var e := DigitsEnd(a, i + 6);
      assert s[i + 6..e] == a[i + 6..e];
    }
  }

  lemma OpensAfter(a: string, b: string, i: nat)
    ensures OpensAt(a + "\n" + b, |a| + 1 + i) <==> OpensAt(b, i)
  {
    var s, n := a + "\n" + b, |a| + 1;
    if i + 6 <= |b| {
      assert s[n + i] == b[i] && s[n + i + 1] == b[i + 1] && s[n + i + 2] == b[i + 2];
      assert s[n + i + 3] == b[i + 3] && s[n + i + 4] == b[i + 4] && s[n + i + 5] == b[i + 5];
    }
  }

  lemma MatchAfter(a: string, b: string, i: nat)
    ensures MatchAt(a + "\n" + b, |a| + 1 + i).Some? <==> MatchAt(b, i).Some?
    ensures MatchAt(b, i).Some? ==> MatchAt(a + "\n" + b, |a| + 1 + i).value.page == MatchAt(b, i).value.page
  {
    OpensAfter(a, b, i);
    if OpensAt(b, i) {
      var s, n := a + "\n" + b, |a| + 1;
      DigitsEndAfter(a, b, i + 6);
      var e := DigitsEnd(b, i + 6);
      assert s[n..|s|] == b;
      SliceOfSlice(s, n, |s|, i + 6, e);
      assert e < |b| ==> s[n + e] == b[e];
    }
  }

  lemma {:induction false} PageBefore(a: string, b: string, pos: int)
    requires pos <= |a|
    ensures PageAt(a + "\n" + b, pos) == PageAt(a, pos)
    decreases if pos < 0 then 0 else pos + 1
  {
    if pos >= 0 {
      MatchBefore(a, b, pos);
      PageBefore(a, b, pos - 1);
    }
  }

  lemma {:induction false} PageAfter(a: string, b: string, i: int)
    requires i >= -1
    ensures PageAt(a + "\n" + b, |a| + 1 + i) == if PageAt(b, i).Some? then PageAt(b, i) else PageAt(a, |a|)
    decreases i + 1
  {
    if i < 0 {
      PageBefore(a, b, |a|);
    } else {
      MatchAfter(a, b, i);
      PageAfter(a, b, i - 1);
    }
  }

  // ---------------------------------------------------------------------------------------------
  // Printing pages
  // ---------------------------------------------------------------------------------------------

  datatype Page = Page(number: nat, body: string)

  function Header(n: nat): string {
    "[Page " + Decimal(n) + "]"
  }

  function Chunk(p: Page): string {
    Header(p.number) + "\n" + p.body
  }

  function ChunksOf(pages: seq<Page>): (chunks: seq<string>)
    ensures |chunks| == |pages| && forall k | 0 <= k < |pages| :: chunks[k] == Chunk(pages[k])
  {
    if pages == [] then [] else [Chunk(pages[0])] + ChunksOf(pages[1..])
  }

  /** The text of a parsed document. */
  function Render(pages: seq<Page>): string {
    Strip(Python, Join(ChunksOf(pages), "\n\n"))
  }

  /** Every marker in the page's text names that page; a text without markers is the usual case. */
  ghost predicate OwnMarkers(p: Page) {
    forall i: nat :: MatchAt(p.body, i).Some? ==> MatchAt(p.body, i).value.page == p.number
  }

  /** What the parser produces: stripped, non-empty page texts. */
  predicate Printable(pages: seq<Page>) {
    forall k | 0 <= k < |pages| :: Inked(Python, pages[k].body)
  }

  predicate Increasing(pages: seq<Page>) {
    forall j, k | 0 <= j < k < |pages| :: pages[j].number < pages[k].number
  }

  /** Where the section of page `k` begins. */
  function SectionStart(pages: seq<Page>, k: nat): nat
    requires k < |pages|
  {
    if k == 0 then 0 else |Chunk(pages[0])| + 2 + SectionStart(pages[1..], k - 1)
  }

  lemma {:induction false} HeaderPage(n: nat, pos: nat)
    ensures PageAt(Header(n), pos) == Some(n)
    decreases pos
  {
    var h, d := Header(n), Decimal(n);
    if pos == 0 {
      var e := 6 + |d|;
      assert forall k | 6 <= k < e :: h[k] == d[k - 6];
      assert h[e] == ']';
      assert DigitsEnd(h, 6) == e;
      assert h[6..e] == d;
      ParseDecimal(n);
    } else {
      assert MatchAt(h, pos).None? by {
        if pos < |h| {
          assert h[pos] != '[' by {
            if 6 <= pos < 6 + |d| {
              assert h[pos] == d[pos - 6];
            }
          }
        }
      }
      HeaderPage(n, pos - 1);
    }
  }

  lemma {:induction false} OwnPage(p: Page, pos: int)
    requires OwnMarkers(p)
    ensures PageAt(p.body, pos).None? || PageAt(p.body, pos) == Some(p.number)
    decreases if pos < 0 then 0 else pos + 1
  {
    if pos >= 0 {
      OwnPage(p, pos - 1);
    }
  }

  /** The page of a position in one section, whatever markers its text holds. */
  lemma ChunkPage(p: Page, pos: nat)
    ensures var h := |Header(p.number)|;
            PageAt(Chunk(p), pos)
            == if pos > h && PageAt(p.body, pos - h - 1).Some? then PageAt(p.body, pos - h - 1) else Some(p.number)
  {
    var h := Header(p.number);
    HeaderPage(p.number, |h|);
    if pos <= |h| {
      HeaderPage(p.number, pos);
      PageBefore(h, p.body, pos);
    } else {
      PageAfter(h, p.body, pos - |h| - 1);
    }
  }

  lemma ChunkHasPage(p: Page, pos: nat)
    ensures PageAt(Chunk(p), pos).Some?
    ensures OwnMarkers(p) ==> PageAt(Chunk(p), pos) == Some(p.number)
  {
    ChunkPage(p, pos);
    if OwnMarkers(p) {
      OwnPage(p, pos - |Header(p.number)| - 1);
    }
  }

  /** Where a foreign marker misleads. */
  lemma ForeignPage(p: Page) returns (q: nat)
    requires !OwnMarkers(p)
    ensures q < |Chunk(p)| && PageAt(Chunk(p), q) != Some(p.number)
  {
    var i: nat :| MatchAt(p.body, i).Some? && MatchAt(p.body, i).value.page != p.number;
    q := |Header(p.number)| + 1 + i;
    ChunkPage(p, q);
    assert PageAt(p.body, i) == Some(MatchAt(p.body, i).value.page);
  }

  /** One section reads back at every position exactly when its text holds no foreign marker. */
  lemma ChunkReadsBackIff(p: Page)
    ensures (forall pos: nat :: PageAt(Chunk(p), pos) == Some(p.number)) <==> OwnMarkers(p)
  {
    if OwnMarkers(p) {
      forall pos: nat
        ensures PageAt(Chunk(p), pos) == Some(p.number)
      {
        ChunkHasPage(p, pos);
      }
    } else {
      var q := ForeignPage(p);
    }
  }

  /** Across the blank line between two sections. */
  lemma PageAcross(chunk: string, rest: string, pos: nat)
    ensures pos < |chunk| + 2 && PageAt(chunk, |chunk|).Some? && pos >= |chunk| ==>
              PageAt(chunk + "\n\n" + rest, pos) == PageAt(chunk, |chunk|)
    ensures pos < |chunk| ==> PageAt(chunk + "\n\n" + rest, pos) == PageAt(chunk, pos)
    ensures pos >= |chunk| + 2 && PageAt(rest, pos - |chunk| - 2).Some? ==>
              PageAt(chunk + "\n\n" + rest, pos) == PageAt(rest, pos - |chunk| - 2)
  {
    var tail := "" + "\n" + rest;
    assert chunk + "\n\n" + rest == chunk + "\n" + tail;
    if pos <= |chunk| {
      PageBefore(chunk, tail, pos);
    } else {
      var i := pos - |chunk| - 1;
      PageAfter(chunk, tail, i);
      PageAfter("", rest, i - 1);
      assert PageAt("", 0) == None;
    }
  }

  /** Position `q` of section `k`; the last section has no end. */
  predicate InSection(pages: seq<Page>, k: nat, q: nat) {
    k < |pages| && (k + 1 < |pages| ==> q < |Chunk(pages[k])| + 2)
  }

  /** A text in which every position has a page. */
  ghost predicate Paged(t: string) {
    forall pos: nat :: PageAt(t, pos).Some?
  }

  function Start(texts: seq<string>, k: nat): nat
    requires k < |texts|
  {
    if k == 0 then 0 else |texts[0]| + 2 + Start(texts[1..], k - 1)
  }

  lemma FirstText(text: string, rest: string, q: nat)
    requires q < |text| + 2 && Paged(text)
    ensures PageAt(text + "\n\n" + rest, q) == PageAt(text, q)
  {
    PageAcross(text, rest, q);
    if q >= |text| {
      NoMarkerBetween(text, |text|, q);
    }
  }

  lemma LaterText(text: string, rest: string, q: nat)
    requires PageAt(rest, q).Some?
    ensures PageAt(text + "\n\n" + rest, |text| + 2 + q) == PageAt(rest, q)
  {
    PageAcross(text, rest, |text| + 2 + q);
  }

  /** Joined texts read as each of them does on its own. */
  lemma {:induction false} JoinedTexts(texts: seq<string>, k: nat, q: nat)
    requires forall j | 0 <= j < |texts| :: Paged(texts[j])
    requires k < |texts| && (k + 1 < |texts| ==> q < |texts[k]| + 2)
    ensures PageAt(Join(texts, "\n\n"), Start(texts, k) + q) == PageAt(texts[k], q)
  {
    if |texts| > 1 {
      var rest := Join(texts[1..], "\n\n");
      if k == 0 {
        FirstText(texts[0], rest, q);
      } else {
        JoinedTexts(texts[1..], k - 1, q);
        LaterText(texts[0], rest, Start(texts[1..], k - 1) + q);
      }
    }
  }

  lemma {:induction false} StartOfSection(pages: seq<Page>, k: nat)
    requires k < |pages|
    ensures SectionStart(pages, k) == Start(ChunksOf(pages), k)
  {
    if k > 0 {
      StartOfSection(pages[1..], k - 1);
      assert ChunksOf(pages)[1..] == ChunksOf(pages[1..]);
    }
  }

  lemma ChunkPaged(p: Page)
    ensures Paged(Chunk(p))
  {
    forall pos: nat
      ensures PageAt(Chunk(p), pos).Some?
    {
      ChunkHasPage(p, pos);
    }
  }

  lemma ChunksPaged(pages: seq<Page>)
    ensures forall j | 0 <= j < |ChunksOf(pages)| :: Paged(ChunksOf(pages)[j])
  {
    forall j | 0 <= j < |pages|
      ensures Paged(ChunksOf(pages)[j])
    {
      ChunkPaged(pages[j]);
    }
  }

  /** In the assembled text each section reads as it does on its own. */
  lemma JoinedPages(pages: seq<Page>, k: nat, q: nat)
    requires InSection(pages, k, q)
    ensures PageAt(Join(ChunksOf(pages), "\n\n"), SectionStart(pages, k) + q) == PageAt(Chunk(pages[k]), q)
  {
    ChunksPaged(pages);
    StartOfSection(pages, k);
    JoinedTexts(ChunksOf(pages), k, q);
  }

  lemma {:induction false} JoinedIsInked(pages: seq<Page>)
    requires Printable(pages) && pages != []
    ensures Inked(Python, Join(ChunksOf(pages), "\n\n"))
  {
    var chunk := Chunk(pages[0]);
    assert chunk[0] == '[' && chunk[|chunk| - 1] == pages[0].body[|pages[0].body| - 1];
    if |pages| > 1 {
      JoinedIsInked(pages[1..]);
      assert ChunksOf(pages)[1..] == ChunksOf(pages[1..]);
    }
  }

  lemma RenderedSection(pages: seq<Page>, k: nat, q: nat)
    requires Printable(pages) && InSection(pages, k, q)
    ensures PageAt(Render(pages), SectionStart(pages, k) + q) == PageAt(Chunk(pages[k]), q)
  {
    JoinedIsInked(pages);
    StripFixesInked(Python, Join(ChunksOf(pages), "\n\n"));
    JoinedPages(pages, k, q);
  }

  lemma {:induction false} SectionEnd(pages: seq<Page>, k: nat)
    requires k + 1 < |pages|
    ensures SectionStart(pages, k + 1) == SectionStart(pages, k) + |Chunk(pages[k])| + 2
  {
    if k > 0 {
      SectionEnd(pages[1..], k - 1);
    }
  }

  /** Page references invert the page printer: every position in the section of a page, marker, text or
      the blank line after it, is looked up as that page. */
  lemma ReferenceInvertsPrinter(pages: seq<Page>, k: nat, pos: nat)
    requires Printable(pages) && k < |pages| && OwnMarkers(pages[k])
    requires SectionStart(pages, k) <= pos && (k + 1 < |pages| ==> pos < SectionStart(pages, k + 1))
    ensures PageAt(Render(pages), pos) == Some(pages[k].number)
  {
    if k + 1 < |pages| {
      SectionEnd(pages, k);
    }
    RenderedSection(pages, k, pos - SectionStart(pages, k));
    ChunkHasPage(pages[k], pos - SectionStart(pages, k));
  }

  /** Every position reads back as the page of its section. */
  ghost predicate ReadsBack(pages: seq<Page>) {
    forall k: nat, q: nat | InSection(pages, k, q) ::
      PageAt(Render(pages), SectionStart(pages, k) + q) == Some(pages[k].number)
  }

  /** Exactly when that holds: when no page's text has a marker that names another page. */
  lemma ReadsBackExactlyWhen(pages: seq<Page>)
    requires Printable(pages)
    ensures ReadsBack(pages) <==> forall k | 0 <= k < |pages| :: OwnMarkers(pages[k])
  {
    if forall k | 0 <= k < |pages| :: OwnMarkers(pages[k]) {
      forall k: nat, q: nat | InSection(pages, k, q)
        ensures PageAt(Render(pages), SectionStart(pages, k) + q) == Some(pages[k].number)
      {
        RenderedSection(pages, k, q);
        ChunkHasPage(pages[k], q);
      }
    } else {
      var k :| 0 <= k < |pages| && !OwnMarkers(pages[k]);
      ForeignMarkerMisleads(pages, k);
    }
  }

  lemma ForeignMarkerMisleads(pages: seq<Page>, k: nat)
    requires Printable(pages) && k < |pages| && !OwnMarkers(pages[k])
    ensures !ReadsBack(pages)
  {
    var q := ForeignPage(pages[k]);
    assert InSection(pages, k, q);
    RenderedSection(pages, k, q);
  }

  lemma {:induction false} SectionOf(pages: seq<Page>, pos: nat) returns (k: nat)
    requires pages != []
    ensures k < |pages| && SectionStart(pages, k) <= pos
    ensures k + 1 < |pages| ==> pos < SectionStart(pages, k + 1)
    ensures forall j | k < j < |pages| :: pos < SectionStart(pages, j)
  {
    k := 0;
    if |pages| > 1 {
      var width := |Chunk(pages[0])| + 2;
      if pos >= width {
        k := SectionOf(pages[1..], pos - width);
        k := k + 1;
      }
      forall j | k < j < |pages|
        ensures pos < SectionStart(pages, j)
      {
        assert SectionStart(pages, j) == width + SectionStart(pages[1..], j - 1);
      }
    }
  }

  lemma LookedUpSection(pages: seq<Page>, pos: nat) returns (k: nat)
    requires pages != [] && Printable(pages) && forall j | 0 <= j < |pages| :: OwnMarkers(pages[j])
    ensures k < |pages| && PageAt(Render(pages), pos) == Some(pages[k].number)
    ensures SectionStart(pages, k) <= pos && forall j | k < j < |pages| :: pos < SectionStart(pages, j)
  {
    k := SectionOf(pages, pos);
    ReferenceInvertsPrinter(pages, k, pos);
  }

  /** Results never decrease as the position grows. */
  lemma ReferencesIncrease(pages: seq<Page>, p: nat, q: nat)
    requires pages != [] && Printable(pages) && Increasing(pages) && p <= q
    requires forall j | 0 <= j < |pages| :: OwnMarkers(pages[j])
    ensures PageAt(Render(pages), p).Some? && PageAt(Render(pages), q).Some?
    ensures PageAt(Render(pages), p).value <= PageAt(Render(pages), q).value
  {
    var j := LookedUpSection(pages, p);
    var k := LookedUpSection(pages, q);
    assert j <= k;
  }

  /** The text of one section, in its place. */
  lemma SectionText(pages: seq<Page>, k: nat)
    requires Printable(pages) && k < |pages|
    ensures OccursAt("[Page " + Decimal(pages[k].number) + "]" + "\n" + pages[k].body, Render(pages), SectionStart(pages, k))
  {
    JoinedIsInked(pages);
    StripFixesInked(Python, Join(ChunksOf(pages), "\n\n"));
    StartOfSection(pages, k);
    JoinHolds(ChunksOf(pages), k);
  }

  lemma OccursBehind(x: string, y: string, lead: string, i: nat)
    requires OccursAt(x, y, i)
    ensures OccursAt(x, lead + y, |lead| + i)
  {
    assert (lead + y)[|lead|..] == y;
    assert (lead + y)[|lead| + i..|lead| + i + |x|] == y[i..i + |x|];
  }

  lemma {:induction false} JoinHolds(texts: seq<string>, k: nat)
    requires k < |texts|
    ensures OccursAt(texts[k], Join(texts, "\n\n"), Start(texts, k))
  {
    if |texts| > 1 {
      var rest := Join(texts[1..], "\n\n");
      if k == 0 {
        assert (texts[0] + "\n\n" + rest)[..|texts[0]|] == texts[0];
      } else {
        JoinHolds(texts[1..], k - 1);
        OccursBehind(texts[k], rest, texts[0] + "\n\n", Start(texts[1..], k - 1));
      }
    }
  }

  lemma MatchWrites(s: string, i: nat)
    requires MatchAt(s, i).Some?
    ensures var digits := s[i + 6..DigitsEnd(s, i + 6)];
            digits != "" && (forall k | 0 <= k < |digits| :: IsDigit(digits[k])) && OccursAt("[Page " + digits + "]", s, i)
  {
    var e := DigitsEnd(s, i + 6);
    var digits := s[i + 6..e];
    var m := "[Page " + digits + "]";
    MarkerCharacters(digits);
    forall k | 0 <= k < |m|
      ensures s[i..i + |m|][k] == m[k]
    {
      if k >= 6 && k < 6 + |digits| {
        assert m[6 + (k - 6)] == digits[k - 6];
      }
    }
    assert s[i..i + |m|] == m;
  }

  /** A marker is the word, a blank, the digits and the bracket, and its page is the number they write. */
  lemma MatchMeans(s: string, i: nat)
    ensures MatchAt(s, i).Some? <==> exists digits: string ::
              && digits != "" && (forall k | 0 <= k < |digits| :: IsDigit(digits[k]))
              && OccursAt("[Page " + digits + "]", s, i)
  {
    if MatchAt(s, i).Some? {
      MatchWrites(s, i);
    }
    if digits: string :| digits != "" && (forall k | 0 <= k < |digits| :: IsDigit(digits[k])) && OccursAt("[Page " + digits + "]", s, i) {
      MarkerMatches(s, i, digits);
    }
  }

  lemma {:induction false} DigitsEndAt(s: string, i: nat, e: nat)
    requires i <= e <= |s| && (forall k | i <= k < e :: IsDigit(s[k])) && (e < |s| ==> !IsDigit(s[e]))
    ensures DigitsEnd(s, i) == e
    decreases e - i
  {
    if i < e {
      DigitsEndAt(s, i + 1, e);
    }
  }

  lemma OccursCharacters(x: string, y: string, i: nat)
    requires OccursAt(x, y, i)
    ensures forall k | 0 <= k < |x| :: y[i + k] == x[k]
  {
    forall k | 0 <= k < |x|
      ensures y[i + k] == x[k]
    {
      assert y[i..i + |x|][k] == x[k];
    }
  }

  lemma MarkerCharacters(digits: string)
    ensures var m := "[Page " + digits + "]";
            && |m| == |digits| + 7 && OpensAt(m, 0) && m[|digits| + 6] == ']'
            && forall k | 0 <= k < |digits| :: m[6 + k] == digits[k]
  {
  }

  lemma MarkerMatches(s: string, i: nat, digits: string)
    requires digits != "" && (forall k | 0 <= k < |digits| :: IsDigit(digits[k])) && OccursAt("[Page " + digits + "]", s, i)
    ensures MatchAt(s, i) == Some(Match(i, i + 7 + |digits|, Parse(digits)))
  {
    var m := "[Page " + digits + "]";
    MarkerCharacters(digits);
    OccursCharacters(m, s, i);
    MarkerOpens(m, s, i);
    DigitsFollow(m, s, i, digits);
    MatchFrom(s, i, i + 6 + |digits|, digits);
  }

  lemma MatchFrom(s: string, i: nat, e: nat, digits: string)
    requires OpensAt(s, i) && i + 6 < e < |s| && DigitsEnd(s, i + 6) == e && s[e] == ']' && s[i + 6..e] == digits
    requires forall k | 0 <= k < |digits| :: IsDigit(digits[k])
    ensures MatchAt(s, i) == Some(Match(i, e + 1, Parse(digits)))
  {
  }

  lemma MarkerOpens(m: string, s: string, i: nat)
    requires |m| >= 6 && OpensAt(m, 0) && i + |m| <= |s| && forall k | 0 <= k < |m| :: s[i + k] == m[k]
    ensures OpensAt(s, i)
  {
    assert s[i + 0] == m[0] && s[i + 1] == m[1] && s[i + 2] == m[2];
    assert s[i + 3] == m[3] && s[i + 4] == m[4] && s[i + 5] == m[5];
  }

  lemma DigitsFollow(m: string, s: string, i: nat, digits: string)
    requires |m| == |digits| + 7 && i + |m| <= |s| && (forall k | 0 <= k < |m| :: s[i + k] == m[k])
    requires (forall k | 0 <= k < |digits| :: m[6 + k] == digits[k] && IsDigit(digits[k])) && m[|digits| + 6] == ']'
    ensures var e := i + 6 + |digits|;
            DigitsEnd(s, i + 6) == e && s[i + 6..e] == digits && s[e] == ']'
  {
    var e := i + 6 + |digits|;
    forall k | i + 6 <= k < e
      ensures s[k] == digits[k - i - 6]
    {
      assert s[i + (k - i)] == m[6 + (k - i - 6)];
    }
    assert s[i + (6 + |digits|)] == m[6 + |digits|];
    DigitsEndAt(s, i + 6, e);
  }

  function Power(n: nat): nat {
    if n == 0 then 1 else 10 * Power(n - 1)
  }

  function PlaceValue(s: string): nat
    requires forall i | 0 <= i < |s| :: IsDigit(s[i])
  {
    if s == "" then 0 else DigitValue(s[0]) * Power(|s| - 1) + PlaceValue(s[1..])
  }

  lemma {:induction false} PlaceValueSnoc(s: string, c: char)
    requires IsDigit(c) && forall i | 0 <= i < |s| :: IsDigit(s[i])
    ensures PlaceValue(s + [c]) == 10 * PlaceValue(s) + DigitValue(c)
  {
    if s == "" {
      assert s + [c] == [c] && [c][1..] == "";
    } else {
      var t := s + [c];
      PlaceValueSnoc(s[1..], c);
      assert t[1..] == s[1..] + [c] && t[0] == s[0];
      TimesTen(DigitValue(s[0]), Power(|s| - 1));
    }
  }

  lemma TimesTen(d: nat, p: nat)
    ensures d * (10 * p) == 10 * (d * p)
  {
  }

  /** A number is read by the place values of its digits, the first digit counting most. */
  lemma {:induction false} ParseMeans(s: string)
    requires forall i | 0 <= i < |s| :: IsDigit(s[i])
    ensures Parse(s) == PlaceValue(s)
  {
    if s != "" {
      var n := |s| - 1;
      ParseMeans(s[..n]);
      PlaceValueSnoc(s[..n], s[n]);
      assert s == s[..n] + [s[n]];
    }
  }

  /** Marker `i` is the last one at or before a position. */
  ghost predicate LastMarker(s: string, pos: nat, i: nat) {
    i <= pos && MatchAt(s, i).Some? && forall j: nat | i < j <= pos :: MatchAt(s, j).None?
  }

  lemma LastMarkerStays(s: string, pos: nat, i: nat)
    requires LastMarker(s, pos, i) && MatchAt(s, pos + 1).None?
    ensures LastMarker(s, pos + 1, i)
  {
  }

  /** A looked-up page is that of the last marker at or before the position; there is none when there is no such
      marker. */
  lemma {:induction false} PageMeans(s: string, pos: nat) returns (i: nat)
    ensures PageAt(s, pos).None? ==> forall j: nat | j <= pos :: MatchAt(s, j).None?
    ensures PageAt(s, pos).Some? ==> LastMarker(s, pos, i) && MatchAt(s, i).value.page == PageAt(s, pos).value
  {
    i := pos;
    if MatchAt(s, pos).None? {
      if pos > 0 {
        i := PageMeans(s, pos - 1);
        if PageAt(s, pos - 1).Some? {
          LastMarkerStays(s, pos - 1, i);
        }
      } else {
        assert PageAt(s, -1) == None;
      }
    }
  }
}
