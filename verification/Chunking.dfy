/** Splitting a document text into overlapping chunks. */
module Chunking {
  import opened Basics
  import opened Text

  /** `str.rfind(pat, lo, hi)`: the last place where `pat` lies whole within the window, or -1. */
  function RFind(s: string, pat: string, lo: nat, hi: nat): (r: int)
    requires lo <= hi <= |s| && pat != ""
    ensures -1 <= r < hi
    ensures r >= 0 ==> lo <= r && r + |pat| <= hi && OccursAt(pat, s, r)
    ensures forall i: nat | lo <= i && i + |pat| <= hi && OccursAt(pat, s, i) :: i <= r
    decreases hi - lo
  {
    if hi - lo < |pat| then -1
    else if s[hi - |pat|..hi] == pat then hi - |pat|
    else RFind(s, pat, lo, hi - 1)
  }

  function Max(a: int, b: int): int {
    if a > b then a else b
  }

  /** The last paragraph, line or word break of the window, or -1. */
  function LastBreak(s: string, lo: nat, hi: nat): (r: int)
    requires lo <= hi <= |s|
    ensures -1 <= r < hi && (r >= 0 ==> lo <= r && (s[r] == '\n' || s[r] == ' '))
  {
    var p, n, w := RFind(s, "\n\n", lo, hi), RFind(s, "\n", lo, hi), RFind(s, " ", lo, hi);
    assert p >= 0 ==> s[p] == s[p..p + 2][0];
    assert n >= 0 ==> s[n] == s[n..n + 1][0];
    assert w >= 0 ==> s[w] == s[w..w + 1][0];
    Max(Max(p, n), w)
  }

  /** No later position of the window is a break: the paragraph search adds nothing to the line search. */
  lemma LastBreakIsLast(s: string, lo: nat, hi: nat, i: nat)
    requires lo <= i < hi <= |s| && (s[i] == '\n' || s[i] == ' ')
    ensures i <= LastBreak(s, lo, hi)
  {
    assert s[i..i + 1] == [s[i]];
    assert OccursAt(if s[i] == ' ' then " " else "\n", s, i);
  }

  /** Where the window that begins at `start` ends: at the text's end, at a break in its second half,
      or at full size. */
  function WindowEnd(s: string, size: nat, start: nat): (end: nat)
    requires size > 0 && start < |s|
    ensures start < end <= |s| && end <= start + size
    ensures end == |s| || end > start + size / 2
  {
    var full := if start + size < |s| then start + size else |s|;
    if full == |s| then full
    else
      var b := LastBreak(s, start, full);
      if b > start + size / 2 then b else full
  }

  predicate IsBreak(c: char) {
    c == '\n' || c == ' '
  }

  /** A window that does not reach the text's end stops at the last break of its second half, and runs to
      full size exactly when there is none. */
  lemma WindowPrefersBreak(s: string, size: nat, start: nat)
    requires size > 0 && start + size < |s|
    ensures var end := WindowEnd(s, size, start);
            && (end == start + size || IsBreak(s[end]))
            && (forall i | start + size / 2 < i < start + size && IsBreak(s[i]) :: i <= end < start + size)
  {
    forall i | start + size / 2 < i < start + size && IsBreak(s[i])
      ensures i <= WindowEnd(s, size, start) < start + size
    {
      LastBreakIsLast(s, start, start + size, i);
    }
  }

  function NextStart(end: nat, overlap: int, start: nat): (next: nat)
    ensures next > start
  {
    if end - overlap > start + 1 then end - overlap else start + 1
  }

  /** The raw windows from `start` on. Each begins after the one before it, so the recursion ends for
      every overlap, negative ones included. */
  function Windows(s: string, size: nat, overlap: int, start: nat): (ws: seq<(nat, nat)>)
    requires size > 0
    ensures forall k | 0 <= k < |ws| :: start <= ws[k].0 < ws[k].1 <= |s| && ws[k].1 - ws[k].0 <= size
    ensures start < |s| ==> ws != [] && ws[0].0 == start
    ensures |ws| <= (if start < |s| then |s| - start else 0)
    decreases |s| - start
  {
    if start >= |s| then []
    else
      var end := WindowEnd(s, size, start);
      [(start, end)] + if end >= |s| then [] else Windows(s, size, overlap, NextStart(end, overlap, start))
  }

  /** The stripped windows, empty ones dropped. */
  function Pieces(s: string, ws: seq<(nat, nat)>): seq<string>
    requires forall k | 0 <= k < |ws| :: ws[k].0 < ws[k].1 <= |s|
  {
    if ws == [] then []
    else
      var chunk := Strip(Python, s[ws[0].0..ws[0].1]);
      (if chunk == "" then [] else [chunk]) + Pieces(s, ws[1..])
  }

  function Chunks(text: string, size: int, overlap: int): seq<string> {
    var s := Strip(Python, text);
    if s == "" then [""]
    else if size <= 0 || |s| <= size then [s]
    else
      var pieces := Pieces(s, Windows(s, size, overlap, 0));
      if pieces == [] then [s] else pieces
  }

  /** What the loop still has to produce. */
  function Remaining(s: string, size: nat, overlap: int, start: nat): seq<string>
    requires size > 0
  {
    Pieces(s, Windows(s, size, overlap, start))
  }

  lemma RemainingUnfolds(s: string, size: nat, overlap: int, start: nat, end: nat, chunk: string)
    requires size > 0 && start < |s| && end == WindowEnd(s, size, start) && chunk == Strip(Python, s[start..end])
    ensures Remaining(s, size, overlap, start)
         == (if chunk == "" then [] else [chunk])
            + (if end >= |s| then [] else Remaining(s, size, overlap, NextStart(end, overlap, start)))
  {
    var ws := Windows(s, size, overlap, start);
    var rest := if end >= |s| then [] else Windows(s, size, overlap, NextStart(end, overlap, start));
    assert ws == [(start, end)] + rest;
    assert ws[0] == (start, end) && ws[1..] == rest;
    assert Pieces(s, ws) == (if chunk == "" then [] else [chunk]) + Pieces(s, rest);
  }

  /** The search for the end of one window. */
  method FindEnd(s: string, size: nat, start: nat) returns (end: nat)
    requires size > 0 && start < |s|
    ensures end == WindowEnd(s, size, start)
  {
    end := if start + size < |s| then start + size else |s|;
    if end < |s| {
      var lastBreak := LastBreak(s, start, end);
      if lastBreak > start + size / 2 {
        end := lastBreak;
      }
    }
  }

  /** The loop of the source. */
  method CollectPieces(s: string, size: nat, overlap: int) returns (chunks: seq<string>)
    requires size > 0
    ensures chunks == Remaining(s, size, overlap, 0)
  {
    chunks := [];
    var start := 0;
    ghost var all := Remaining(s, size, overlap, 0);
    while start < |s|
      invariant all == chunks + Remaining(s, size, overlap, start)
      decreases |s| - start
    {
      var end := FindEnd(s, size, start);
      var chunk := Strip(Python, s[start..end]);
      ghost var rest := if end >= |s| then [] else Remaining(s, size, overlap, NextStart(end, overlap, start));
      RemainingUnfolds(s, size, overlap, start, end, chunk);
      Regroup(chunks, if chunk == "" then [] else [chunk], rest);
      Regroup(chunks, [], rest);
      if chunk != "" {
        chunks := chunks + [chunk];
      }
      assert all == chunks + rest;
      if end >= |s| {
        return;
      }
      start := NextStart(end, overlap, start);
    }
  }

  method SplitTextIntoChunks(text: string, size: int, overlap: int) returns (chunks: seq<string>)
    ensures chunks == Chunks(text, size, overlap)
  {
    var s := Strip(Python, text);
    if s == "" {
      return [""];
    }
    if size <= 0 || |s| <= size {
      return [s];
    }
    chunks := CollectPieces(s, size, overlap);
    if chunks == [] {
      return [s];
    }
  }

  lemma {:induction false} PieceOfWindow(s: string, ws: seq<(nat, nat)>, k: nat)
    requires forall k | 0 <= k < |ws| :: ws[k].0 < ws[k].1 <= |s|
    requires k < |ws| && Strip(Python, s[ws[k].0..ws[k].1]) != ""
    ensures Strip(Python, s[ws[k].0..ws[k].1]) in Pieces(s, ws)
  {
    if k > 0 {
      PieceOfWindow(s, ws[1..], k - 1);
    }
  }

  predicate Holds(ws: seq<(nat, nat)>, k: nat, a: nat, b: nat) {
    k < |ws| && ws[k].0 <= a && b <= ws[k].1
  }

  lemma HoldsLater(first: (nat, nat), rest: seq<(nat, nat)>, k: nat, a: nat, b: nat)
    requires Holds(rest, k, a, b)
    ensures Holds([first] + rest, k + 1, a, b)
  {
  }

  /** The window that holds a span: the last one that starts at or before it. */
  lemma {:induction false} SpanInWindow(s: string, size: nat, overlap: nat, start: nat, a: nat, b: nat) returns (k: nat)
    requires size > 0 && start <= a < b <= |s|
    requires b - a <= overlap + 1 && b - a <= size / 2 + 1
    ensures Holds(Windows(s, size, overlap, start), k, a, b)
    decreases |s| - start
  {
    var end := WindowEnd(s, size, start);
    if b <= end {
      k := 0;
    } else {
      var next := NextStart(end, overlap, start);
      k := SpanInWindow(s, size, overlap, next, a, b);
      HoldsLater((start, end), Windows(s, size, overlap, next), k, a, b);
      k := k + 1;
    }
  }

  lemma WindowKeepsSpan(s: string, ws: seq<(nat, nat)>, k: nat, a: nat, b: nat)
    requires forall i | 0 <= i < |ws| :: ws[i].0 < ws[i].1 <= |s|
    requires Holds(ws, k, a, b) && a < b && !IsSpace(Python, s[a]) && !IsSpace(Python, s[b - 1])
    ensures exists chunk :: chunk in Pieces(s, ws) && Occurs(s[a..b], chunk)
  {
    var lo, hi := ws[k].0, ws[k].1;
    SpanSurvivesStrip(Python, s, lo, hi, a, b);
    assert s[lo..hi][a - lo] == s[a];
    StripEmptyIff(Python, s[lo..hi]);
    PieceOfWindow(s, ws, k);
  }

  /** A short span that starts and ends in a non-space character appears whole in some chunk, for every
      text, size and overlap. */
  lemma ShortSpanSurvives(text: string, size: int, overlap: nat, a: nat, b: nat)
    requires var s := Strip(Python, text); a < b <= |s| && Inked(Python, s[a..b])
    requires size > 0 ==> b - a <= overlap + 1 && b - a <= size / 2 + 1
    ensures var s := Strip(Python, text);
            exists chunk :: chunk in Chunks(text, size, overlap) && Occurs(s[a..b], chunk)
  {
    var s := Strip(Python, text);
    if size <= 0 || |s| <= size {
      assert OccursAt(s[a..b], s, a);
      assert s in Chunks(text, size, overlap);
    } else {
      assert s[a..b][0] == s[a] && s[a..b][b - a - 1] == s[b - 1];
      var k := SpanInWindow(s, size, overlap, 0, a, b);
      WindowKeepsSpan(s, Windows(s, size, overlap, 0), k, a, b);
    }
  }

  /** When half the chunk size is at least the overlap, every inked span of at most `overlap + 1`
      characters appears whole inside some chunk. */
  lemma OverlapKeepsSpansWhole(text: string, size: int, overlap: nat, a: nat, b: nat)
    requires size / 2 >= overlap
    requires var s := Strip(Python, text); a < b <= |s| && b - a <= overlap + 1 && Inked(Python, s[a..b])
    ensures var s := Strip(Python, text);
            exists chunk :: chunk in Chunks(text, size, overlap) && Occurs(s[a..b], chunk)
  {
    ShortSpanSurvives(text, size, overlap, a, b);
  }

  /** No position is lost. A short text, or one for which no size is set, is its own chunk; otherwise some window
      holds the position, and if its character is no space then the stripped text of that window is a chunk. */
  lemma EveryInkCharacterKept(text: string, size: int, overlap: nat, i: nat) returns (k: nat)
    requires i < |Strip(Python, text)|
    ensures var s := Strip(Python, text);
            if size <= 0 || |s| <= size then Chunks(text, size, overlap) == [s]
            else
              var ws := Windows(s, size, overlap, 0);
              && Holds(ws, k, i, i + 1)
              && (!IsSpace(Python, s[i]) ==> Strip(Python, s[ws[k].0..ws[k].1]) in Chunks(text, size, overlap))
  {
    var s := Strip(Python, text);
    k := 0;
    if size > 0 && |s| > size {
      k := SpanInWindow(s, size, overlap, 0, i, i + 1);
      if !IsSpace(Python, s[i]) {
        InkedWindowIsPiece(s, Windows(s, size, overlap, 0), k, i);
      }
    }
  }

  lemma InkedWindowIsPiece(s: string, ws: seq<(nat, nat)>, k: nat, i: nat)
    requires forall k | 0 <= k < |ws| :: ws[k].0 < ws[k].1 <= |s|
    requires Holds(ws, k, i, i + 1) && !IsSpace(Python, s[i])
    ensures Strip(Python, s[ws[k].0..ws[k].1]) in Pieces(s, ws)
  {
    var window := s[ws[k].0..ws[k].1];
    assert window[i - ws[k].0] == s[i];
    StripEmptyIff(Python, window);
    PieceOfWindow(s, ws, k);
  }

  // ---------------------------------------------------------------------------------------------
  // How consecutive windows lie
  // ---------------------------------------------------------------------------------------------

  /** A window that can reach the text's end does so. */
  lemma LastWindowReachesEnd(s: string, size: nat, start: nat)
    requires size > 0 && start < |s| <= start + size
    ensures WindowEnd(s, size, start) == |s|
  {
  }

  /** Two consecutive windows share exactly `overlap` characters, a negative overlap leaving a gap; only where that
      would not move on does the second begin one character after the first. */
  predicate Follows(first: (nat, nat), second: (nat, nat), overlap: int) {
    && first.0 < second.0
    && (second.0 == first.1 - overlap || (second.0 == first.0 + 1 && first.1 - overlap <= first.0 + 1))
  }

  /** The windows begin at `start`; each ends where the search for its end says; the last one ends at the text's
      end, or the gap that a negative overlap leaves after it does; and consecutive windows share the overlap. */
  lemma {:induction false} WindowsMean(s: string, size: nat, overlap: int, start: nat)
    requires size > 0 && start < |s|
    ensures var ws := Windows(s, size, overlap, start);
            && ws != [] && ws[0].0 == start
            && (forall k | 0 <= k < |ws| :: ws[k].0 < |s| && ws[k].1 == WindowEnd(s, size, ws[k].0))
            && (forall k | 0 <= k < |ws| - 1 :: ws[k].1 < |s| && Follows(ws[k], ws[k + 1], overlap))
            && var last := ws[|ws| - 1]; last.1 == |s| || last.1 - overlap >= |s|
    decreases |s| - start
  {
    var end := WindowEnd(s, size, start);
    var next := NextStart(end, overlap, start);
    if end < |s| && next < |s| {
      WindowsMean(s, size, overlap, next);
    }
  }

  /** A text that fits, or one for which no size is set, is left whole. */
  lemma WholeWhenShort(text: string, size: int, overlap: int)
    requires var s := Strip(Python, text); s == "" || size <= 0 || |s| <= size
    ensures Chunks(text, size, overlap) == [Strip(Python, text)]
  {
  }

  // ---------------------------------------------------------------------------------------------
  // Without overlap the chunks are the text
  // ---------------------------------------------------------------------------------------------

  function InkOfAll(chunks: seq<string>): string {
    if chunks == [] then "" else Ink(chunks[0]) + InkOfAll(chunks[1..])
  }

  lemma {:induction false} InkOfAllConcat(a: seq<string>, b: seq<string>)
    ensures InkOfAll(a + b) == InkOfAll(a) + InkOfAll(b)
  {
    if a == [] {
      assert a + b == b;
    } else {
      InkOfAllConcat(a[1..], b);
      assert (a + b)[1..] == a[1..] + b && (a + b)[0] == a[0];
      Regroup(Ink(a[0]), InkOfAll(a[1..]), InkOfAll(b));
    }
  }

  lemma InkOfWindow(s: string, start: nat, end: nat)
    requires start <= end <= |s|
    ensures Ink(s[start..]) == Ink(Strip(Python, s[start..end])) + Ink(s[end..])
  {
    InkOfStrip(s[start..end]);
    assert s[start..] == s[start..end] + s[end..];
    InkConcat(s[start..end], s[end..]);
  }

  /** What the loop still has to produce after a window, without overlap. */
  function After(s: string, size: nat, end: nat): seq<string>
    requires size > 0
  {
    if end >= |s| then [] else Remaining(s, size, 0, end)
  }

  lemma InkOfRemaining(s: string, size: nat, start: nat)
    requires size > 0 && start < |s|
    ensures var end := WindowEnd(s, size, start);
            InkOfAll(Remaining(s, size, 0, start)) == Ink(Strip(Python, s[start..end])) + InkOfAll(After(s, size, end))
  {
    var end := WindowEnd(s, size, start);
    var chunk := Strip(Python, s[start..end]);
    RemainingUnfolds(s, size, 0, start, end, chunk);
    var first := if chunk == "" then [] else [chunk];
    assert Remaining(s, size, 0, start) == first + After(s, size, end);
    InkOfAllConcat(first, After(s, size, end));
    InkOfAllSingle(chunk);
  }

  lemma InkOfAllSingle(chunk: string)
    ensures InkOfAll(if chunk == "" then [] else [chunk]) == Ink(chunk)
  {
    assert Ink(chunk) + "" == Ink(chunk);
  }

  lemma {:induction false} RemainingInk(s: string, size: nat, start: nat)
    requires size > 0 && start <= |s|
    ensures InkOfAll(After(s, size, start)) == Ink(s[start..])
    decreases |s| - start
  {
    if start < |s| {
      var end := WindowEnd(s, size, start);
      InkOfRemaining(s, size, start);
      RemainingInk(s, size, end);
      InkOfWindow(s, start, end);
    }
  }

  /** Without overlap, and whatever the size, the chunks put together are the text, spaces aside: nothing is
      lost, repeated or moved. */
  lemma ChunksAreTheText(text: string, size: int)
    ensures InkOfAll(Chunks(text, size, 0)) == Ink(text)
  {
    var s := Strip(Python, text);
    InkOfStrip(text);
    if s == "" || size <= 0 || |s| <= size {
      assert Chunks(text, size, 0) == [s];
      InkOfAllSingle(s);
    } else {
      RemainingInk(s, size, 0);
      assert s[0..] == s;
      FirstWindowHasInk(s, size, 0);
    }
  }

  lemma {:induction false} PieceIsStrippedWindow(s: string, ws: seq<(nat, nat)>, chunk: string) returns (k: nat)
    requires forall k | 0 <= k < |ws| :: ws[k].0 < ws[k].1 <= |s|
    requires chunk in Pieces(s, ws)
    ensures chunk != "" && k < |ws| && chunk == Strip(Python, s[ws[k].0..ws[k].1])
  {
    k := 0;
    if chunk in Pieces(s, ws[1..]) {
      k := PieceIsStrippedWindow(s, ws[1..], chunk);
      k := k + 1;
    }
  }

  lemma {:induction false} PiecesBounded(s: string, ws: seq<(nat, nat)>)
    requires forall k | 0 <= k < |ws| :: ws[k].0 < ws[k].1 <= |s|
    ensures |Pieces(s, ws)| <= |ws|
  {
    if ws != [] {
      PiecesBounded(s, ws[1..]);
    }
  }

  lemma FirstWindowHasInk(s: string, size: nat, overlap: int)
    requires size > 0 && Inked(Python, s)
    ensures Remaining(s, size, overlap, 0) != []
  {
    var end := WindowEnd(s, size, 0);
    assert s[0..end][0] == s[0];
    StripEmptyIff(Python, s[0..end]);
    RemainingUnfolds(s, size, overlap, 0, end, Strip(Python, s[0..end]));
  }

  lemma StrippedSpanOccurs(s: string, lo: nat, hi: nat)
    requires lo <= hi <= |s|
    ensures Occurs(Strip(Python, s[lo..hi]), s)
  {
    var a, b := StripIsSpan(Python, s[lo..hi]);
    SliceOfSlice(s, lo, hi, a, b);
    assert OccursAt(Strip(Python, s[lo..hi]), s, lo + a);
  }

  lemma WindowPieceFits(s: string, size: nat, overlap: int, chunk: string)
    requires size > 0 && chunk in Remaining(s, size, overlap, 0)
    ensures chunk != "" && |chunk| <= size && Occurs(chunk, s)
  {
    var ws := Windows(s, size, overlap, 0);
    var k := PieceIsStrippedWindow(s, ws, chunk);
    StrippedSpanOccurs(s, ws[k].0, ws[k].1);
  }

  /** For a positive size no chunk exceeds it, and every chunk is a piece of the text. */
  lemma ChunksFit(text: string, size: int, overlap: int, chunk: string)
    requires size > 0 && chunk in Chunks(text, size, overlap)
    ensures |chunk| <= size && Occurs(chunk, Strip(Python, text))
    ensures chunk == "" <==> Strip(Python, text) == ""
  {
    var s := Strip(Python, text);
    if s == "" || |s| <= size {
      assert OccursAt(chunk, s, 0);
    } else {
      FirstWindowHasInk(s, size, overlap);
      WindowPieceFits(s, size, overlap, chunk);
    }
  }

  /** With half the size above the overlap each step advances by more than their difference, so the
      number of windows is linear in the text length over that difference. */
  lemma {:induction false} WindowsAdvance(s: string, size: nat, overlap: nat, start: nat, step: nat, advances: int)
    requires size > 0 && step == size / 2 - overlap && step > 0 && start < |s|
    requires advances == |Windows(s, size, overlap, start)| - 1
    ensures advances * step <= |s| - start
    decreases |s| - start
  {
    var end := WindowEnd(s, size, start);
    if end < |s| {
      var next := NextStart(end, overlap, start);
      WindowsAdvance(s, size, overlap, next, step, advances - 1);
      assert next >= start + step;
      Successor(advances - 1, step);
    } else {
      assert advances == 0;
    }
  }

  lemma Successor(n: int, step: int)
    ensures (n + 1) * step == n * step + step
  {
  }

  lemma Monotone(m: int, n: int, step: nat)
    requires m <= n
    ensures m * step <= n * step
  {
  }

  /** There is at least one chunk and never more than the text has characters. */
  lemma ChunkCount(text: string, size: int, overlap: int)
    ensures 1 <= |Chunks(text, size, overlap)| <= Max(1, |text|)
  {
    var s := Strip(Python, text);
    if s != "" && size > 0 && |s| > size {
      FirstWindowHasInk(s, size, overlap);
      PiecesBounded(s, Windows(s, size, overlap, 0));
    }
  }

  lemma ChunksWithinWindows(text: string, size: nat, overlap: int)
    requires size > 0 && |Strip(Python, text)| > size
    ensures |Chunks(text, size, overlap)| <= |Windows(Strip(Python, text), size, overlap, 0)|
  {
    var s := Strip(Python, text);
    FirstWindowHasInk(s, size, overlap);
    PiecesBounded(s, Windows(s, size, overlap, 0));
  }

  lemma ProductBound(m: int, n: int, step: nat, length: nat)
    requires m <= n && n * step <= length
    ensures m * step <= length
  {
    Monotone(m, n, step);
  }

  /** With half the size above the overlap the chunk count is linear in the text length. */
  lemma ChunkCountLinear(text: string, size: nat, overlap: nat, step: nat, steps: int)
    requires size > 0 && step == size / 2 - overlap && step > 0
    requires steps == |Chunks(text, size, overlap)| - 1
    ensures steps * step <= |Strip(Python, text)|
  {
    var s := Strip(Python, text);
    if |s| > size {
      var advances := |Windows(s, size, overlap, 0)| - 1;
      assert steps <= advances by {
        ChunksWithinWindows(text, size, overlap);
      }
      WindowsAdvance(s, size, overlap, 0, step, advances);
      ProductBound(steps, advances, step, |s|);
    } else {
      assert steps == 0;
    }
  }
}
