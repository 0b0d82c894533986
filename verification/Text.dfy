/** White space, stripping and substrings.

    Three components (chunking, feedback suggestions, the draft codec) cut a window out of a text and
    strip it. They share one fact: a span that starts and ends in a non-space character survives the
    stripping of every window that encloses it (`SpanSurvivesStrip`).
 */
module Text {
  import opened Basics

  /** The worker and the backend strip with Python's `str.strip`, the frontend with JavaScript's
      `String.prototype.trim`; the two disagree on a few code points. */
  datatype Platform = Python | JavaScript

  predicate IsSpace(p: Platform, c: char) {
    || '\t' <= c <= '\r'
    || c == ' '
    || c in {'\U{A0}', '\U{1680}', '\U{2028}', '\U{2029}', '\U{202F}', '\U{205F}', '\U{3000}'}
    || '\U{2000}' <= c <= '\U{200A}'
    || (p.Python? && ('\U{1C}' <= c <= '\U{1F}' || c == '\U{85}'))
    || (p.JavaScript? && c == '\U{FEFF}')
  }

  /** The white space of the two platforms, one by one. */
  lemma SpacesListed(c: char)
    ensures var shared := {'\U{09}', '\U{0A}', '\U{0B}', '\U{0C}', '\U{0D}', '\U{20}', '\U{A0}', '\U{1680}',
                           '\U{2000}', '\U{2001}', '\U{2002}', '\U{2003}', '\U{2004}', '\U{2005}', '\U{2006}', '\U{2007}',
                           '\U{2008}', '\U{2009}', '\U{200A}', '\U{2028}', '\U{2029}', '\U{202F}', '\U{205F}', '\U{3000}'};
            && (IsSpace(Python, c) <==> c in shared + {'\U{1C}', '\U{1D}', '\U{1E}', '\U{1F}', '\U{85}'})
            && (IsSpace(JavaScript, c) <==> c in shared + {'\U{FEFF}'})
  {
  }

  predicate HasInk(p: Platform, s: string) {
    exists i :: 0 <= i < |s| && !IsSpace(p, s[i])
  }

  /** Starts and ends in a non-space character. */
  predicate Inked(p: Platform, s: string) {
    s != "" && !IsSpace(p, s[0]) && !IsSpace(p, s[|s| - 1])
  }

  /** `x` appears, whole and contiguous, in `y`. */
  ghost predicate Occurs(x: string, y: string) {
    exists i: nat :: OccursAt(x, y, i)
  }

  predicate OccursAt(x: string, y: string, i: nat) {
    i + |x| <= |y| && y[i..i + |x|] == x
  }

  /** Drop spaces from both ends. */
  function Strip(p: Platform, s: string): (r: string)
    ensures |r| <= |s|
    ensures r != "" ==> Inked(p, r)
    decreases |s|
  {
    if s == "" then ""
    else if IsSpace(p, s[0]) then Strip(p, s[1..])
    else if IsSpace(p, s[|s| - 1]) then Strip(p, s[..|s| - 1])
    else s
  }

  lemma SliceOfSlice(s: string, lo: nat, hi: nat, i: nat, j: nat)
    requires lo <= hi <= |s| && i <= j <= hi - lo
    ensures s[lo..hi][i..j] == s[lo + i..lo + j]
  {
    var inner, outer := s[lo..hi][i..j], s[lo + i..lo + j];
    forall k | 0 <= k < j - i
      ensures inner[k] == outer[k]
    {
      assert inner[k] == s[lo..hi][i + k];
    }
  }

  /** `s[lo..hi]` with nothing but spaces around it. */
  ghost predicate InkWithin(p: Platform, s: string, lo: nat, hi: nat) {
    lo <= hi <= |s| && forall i | 0 <= i < |s| && !IsSpace(p, s[i]) :: lo <= i < hi
  }

  lemma InkWithinTail(p: Platform, s: string, lo: nat, hi: nat)
    requires s != "" && IsSpace(p, s[0]) && InkWithin(p, s[1..], lo, hi)
    ensures InkWithin(p, s, lo + 1, hi + 1)
  {
    assert forall i | 0 < i < |s| :: s[i] == s[1..][i - 1];
  }

  lemma InkWithinInit(p: Platform, s: string, lo: nat, hi: nat)
    requires s != "" && IsSpace(p, s[|s| - 1]) && InkWithin(p, s[..|s| - 1], lo, hi)
    ensures InkWithin(p, s, lo, hi)
  {
    assert forall i | 0 <= i < |s| - 1 :: s[i] == s[..|s| - 1][i];
  }

  /** Stripping cuts a contiguous, inked piece out of the text and leaves only spaces outside it. */
  lemma {:induction false} StripIsSpan(p: Platform, s: string) returns (lo: nat, hi: nat)
    ensures InkWithin(p, s, lo, hi) && Strip(p, s) == s[lo..hi]
    decreases |s|
  {
    if s == "" {
      lo, hi := 0, 0;
    } else if IsSpace(p, s[0]) {
      lo, hi := StripIsSpan(p, s[1..]);
      InkWithinTail(p, s, lo, hi);
      SliceOfSlice(s, 1, |s|, lo, hi);
      assert s[1..] == s[1..|s|];
      lo, hi := lo + 1, hi + 1;
    } else if IsSpace(p, s[|s| - 1]) {
      lo, hi := StripIsSpan(p, s[..|s| - 1]);
      InkWithinInit(p, s, lo, hi);
      SliceOfSlice(s, 0, |s| - 1, lo, hi);
      assert s[..|s| - 1] == s[0..|s| - 1];
    } else {
      lo, hi := 0, |s|;
      assert s[lo..hi] == s;
    }
  }

  lemma StripEmptyIff(p: Platform, s: string)
    ensures Strip(p, s) == "" <==> !HasInk(p, s)
  {
    var lo, hi := StripIsSpan(p, s);
    if Strip(p, s) != "" {
      assert s[lo] == Strip(p, s)[0];
    }
  }

  lemma StripFixesInked(p: Platform, s: string)
    requires Inked(p, s)
    ensures Strip(p, s) == s
  {
  }

  lemma StripIdempotent(p: Platform, s: string)
    ensures Strip(p, Strip(p, s)) == Strip(p, s)
  {
    if Strip(p, s) != "" {
      StripFixesInked(p, Strip(p, s));
    }
  }

  /** The shared lemma: an inked span survives the stripping of any enclosing window. */
  lemma SpanSurvivesStrip(p: Platform, s: string, lo: nat, hi: nat, a: nat, b: nat)
    requires lo <= a < b <= hi <= |s|
    requires !IsSpace(p, s[a]) && !IsSpace(p, s[b - 1])
    ensures Occurs(s[a..b], Strip(p, s[lo..hi]))
  {
    var w := s[lo..hi];
    var l, t := StripIsSpan(p, w);
    assert !IsSpace(p, w[a - lo]) && !IsSpace(p, w[b - 1 - lo]);
    SliceOfSlice(s, lo, hi, a - lo, b - lo);
    SliceOfSlice(w, l, t, a - lo - l, b - lo - l);
    assert OccursAt(s[a..b], Strip(p, w), a - lo - l);
  }

  /** Concatenation with a separator: Python's and JavaScript's `join`. */
  function Join(parts: seq<string>, sep: string): string {
    if parts == [] then ""
    else if |parts| == 1 then parts[0]
    else parts[0] + sep + Join(parts[1..], sep)
  }

  /** A text without its spaces. */
  function Ink(s: string): (r: string) {
    if s == "" then "" else (if IsSpace(Python, s[0]) then "" else [s[0]]) + Ink(s[1..])
  }

  lemma {:induction false} InkConcat(a: string, b: string)
    ensures Ink(a + b) == Ink(a) + Ink(b)
  {
    if a == "" {
      assert a + b == b;
    } else {
      var first := if IsSpace(Python, a[0]) then "" else [a[0]];
      InkConcat(a[1..], b);
      assert (a + b)[1..] == a[1..] + b && (a + b)[0] == a[0];
      Regroup(first, Ink(a[1..]), Ink(b));
    }
  }

  lemma {:induction false} InkOfStrip(s: string)
    ensures Ink(Strip(Python, s)) == Ink(s)
    decreases |s|
  {
    if s != "" && IsSpace(Python, s[0]) {
      InkOfStrip(s[1..]);
    } else if s != "" && IsSpace(Python, s[|s| - 1]) {
      var init := s[..|s| - 1];
      InkOfStrip(init);
      assert s == init + [s[|s| - 1]];
      InkConcat(init, [s[|s| - 1]]);
    }
  }
}
