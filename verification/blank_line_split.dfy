/** `text.split(/\n\s*\n+/)`: cutting a text into paragraphs at blank lines,
    with the exact match the regular expression makes. At a line feed the
    pattern's greedy `\s*` first swallows the whole white run that follows and
    then backs off until `\n+` can match, so a break runs from that line feed
    to just after the LAST line feed of the run; the white space after it
    (spaces, tabs, no line feed) opens the next paragraph. `split` takes the
    leftmost match, cuts there and resumes scanning at the match's end. */
module BlankLineSplit {
  import opened Wrappers
  import opened JsText

  /** Index of the last line feed in `s[lo..hi]`, or -1 when there is none. */
  function LastNewline(s: string, lo: nat, hi: nat): (l: int)
    requires lo <= hi <= |s|
    ensures l == -1 || (lo <= l < hi && s[l] == '\n')
    ensures forall k :: lo <= k < hi && l < k ==> s[k] != '\n'
    decreases hi - lo
  {
    if hi == lo then -1
    else if s[hi - 1] == '\n' then hi - 1
    else LastNewline(s, lo, hi - 1)
  }

  /** The white run that starts at `e` holds no line feed. */
  predicate CleanLead(s: string, e: nat)
    requires e <= |s|
  {
    forall k :: e <= k < WhiteRunEnd(s, e) ==> s[k] != '\n'
  }

  /** A text the pattern `\n\s*\n+` matches in full. */
  predicate IsBreak(t: string) {
    |t| >= 2 && t[0] == '\n' && t[|t| - 1] == '\n' && Blank(t)
  }

  /** Restarting the white-run scan inside a white run ends at the same place. */
  lemma WhiteRunEndInside(s: string, i: nat, j: nat)
    requires i <= |s| && i <= j <= WhiteRunEnd(s, i)
    ensures WhiteRunEnd(s, j) == WhiteRunEnd(s, i)
  {
  }

  /** The end of the match of `\n\s*\n+` anchored at `q`, if it matches there.
      A match is a break after which no further line feed could be taken in
      (the pattern is greedy); there is no match exactly when `s[q]` is not a
      line feed or no second line feed follows within the white run. */
  function BreakAt(s: string, q: nat): (m: Option<nat>)
    requires q < |s|
    ensures m.Some? ==> q + 2 <= m.value <= |s| && IsBreak(s[q..m.value]) && CleanLead(s, m.value)
    ensures m.None? <==> s[q] != '\n' || CleanLead(s, q + 1)
  {
    if s[q] != '\n' then None
    else
      var f := WhiteRunEnd(s, q + 1);
      var l := LastNewline(s, q + 1, f);
      if l < 0 then None
      else
        WhiteRunEndInside(s, q + 1, l + 1);
        Some(l + 1)
  }

  /** Where a break was found: `s[at..end]` is the matched text. */
  datatype Cut = Cut(at: nat, end: nat)

  /** The leftmost match at or after `q`. */
  function FirstBreak(s: string, q: nat): (m: Option<Cut>)
    requires q <= |s|
    ensures m.Some? ==> q <= m.value.at < |s| && BreakAt(s, m.value.at) == Some(m.value.end)
    ensures m.Some? ==> forall i :: q <= i < m.value.at ==> BreakAt(s, i).None?
    ensures m.None? ==> forall i :: q <= i < |s| ==> BreakAt(s, i).None?
    decreases |s| - q
  {
    if q == |s| then None
    else match BreakAt(s, q)
      case Some(e) => Some(Cut(q, e))
      case None => FirstBreak(s, q + 1)
  }

  /** The pieces `split` returns, and the separators it dropped between them. */
  datatype Split = Split(paras: seq<string>, breaks: seq<string>)

  /** `split(/\n\s*\n+/)`: there is always one more paragraph than breaks, and
      every dropped separator is a blank-line break. */
  function SplitBlankLines(s: string): (r: Split)
    ensures |r.paras| == |r.breaks| + 1
    ensures forall i :: 0 <= i < |r.breaks| ==> IsBreak(r.breaks[i])
    decreases |s|
  {
    match FirstBreak(s, 0)
    case None => Split([s], [])
    case Some(c) =>
      var rest := SplitBlankLines(s[c.end..]);
      Split([s[..c.at]] + rest.paras, [s[c.at..c.end]] + rest.breaks)
  }

  /** The paragraphs of a text, as `chunkText` sees them. */
  function Paragraphs(s: string): seq<string> {
    SplitBlankLines(s).paras
  }

  /** Paragraphs and breaks laid back in turn. */
  function Weave(ps: seq<string>, bs: seq<string>): string
    requires |ps| == |bs| + 1
  {
    if bs == [] then ps[0] else ps[0] + bs[0] + Weave(ps[1..], bs[1..])
  }

  /** Splitting loses nothing: putting the breaks back between the paragraphs
      gives the text again. */
  lemma {:induction false} SplitReassembles(s: string)
    ensures Weave(SplitBlankLines(s).paras, SplitBlankLines(s).breaks) == s
    decreases |s|
  {
    match FirstBreak(s, 0)
    case None =>
    case Some(c) =>
      var rest := SplitBlankLines(s[c.end..]);
      assert SplitBlankLines(s) == Split([s[..c.at]] + rest.paras, [s[c.at..c.end]] + rest.breaks);
      WeaveCons(s[..c.at], s[c.at..c.end], rest.paras, rest.breaks);
      SplitReassembles(s[c.end..]);
      CutInThree(s, c.at, c.end);
  }

  /** Weaving a paragraph and a break in front of a weave. */
  lemma WeaveCons(p: string, b: string, ps: seq<string>, bs: seq<string>)
    requires |ps| == |bs| + 1
    ensures Weave([p] + ps, [b] + bs) == p + b + Weave(ps, bs)
  {
    assert ([p] + ps)[1..] == ps && ([b] + bs)[1..] == bs;
  }

  /** Cutting a sequence at two points and gluing the pieces back. */
  lemma CutInThree<T>(s: seq<T>, i: nat, j: nat)
    requires i <= j <= |s|
    ensures s[..i] + s[i..j] + s[j..] == s
  {
  }

  /** The paragraphs after the first break are those of the rest of the text. */
  lemma ParagraphsUnfold(s: string, c: Cut)
    requires FirstBreak(s, 0) == Some(c)
    ensures |Paragraphs(s)| == |Paragraphs(s[c.end..])| + 1
    ensures Paragraphs(s)[0] == s[..c.at]
    ensures forall j :: 1 <= j < |Paragraphs(s)| ==> Paragraphs(s)[j] == Paragraphs(s[c.end..])[j - 1]
  {
  }

  /** A prefix cut before `a` has no break where the whole text had none. */
  lemma NoBreakInPrefix(s: string, a: nat, i: nat)
    requires i < a <= |s|
    requires BreakAt(s, i).None?
    ensures BreakAt(s[..a], i).None?
  {
    var t := s[..a];
    if t[i] == '\n' {
      assert WhiteRunEnd(t, i + 1) <= WhiteRunEnd(s, i + 1);
    }
  }

  /** Paragraphs are maximal: the pattern matches nowhere inside one. */
  lemma {:induction false} ParagraphsHaveNoBreak(s: string)
    ensures forall j, i :: 0 <= j < |Paragraphs(s)| && 0 <= i < |Paragraphs(s)[j]| ==> BreakAt(Paragraphs(s)[j], i).None?
    decreases |s|
  {
    match FirstBreak(s, 0)
    case None =>
    case Some(c) =>
      var t := s[c.end..];
      ParagraphsUnfold(s, c);
      ParagraphsHaveNoBreak(t);
      forall j, i | 0 <= j < |Paragraphs(s)| && 0 <= i < |Paragraphs(s)[j]|
        ensures BreakAt(Paragraphs(s)[j], i).None?
      {
        if j == 0 {
          NoBreakInPrefix(s, c.at, i);
        } else {
          assert Paragraphs(s)[j] == Paragraphs(t)[j - 1];
        }
      }
  }

  /** Every character of a paragraph comes from the text. */
  lemma {:induction false} ParagraphCharsFromText(s: string)
    ensures forall j, k :: 0 <= j < |Paragraphs(s)| && 0 <= k < |Paragraphs(s)[j]| ==> Paragraphs(s)[j][k] in s
    decreases |s|
  {
    match FirstBreak(s, 0)
    case None =>
    case Some(c) =>
      var t := s[c.end..];
      ParagraphCharsFromText(t);
      forall j, k | 1 <= j < |Paragraphs(s)| && 0 <= k < |Paragraphs(s)[j]|
        ensures Paragraphs(s)[j][k] in s
      {
        assert Paragraphs(s)[j] == Paragraphs(t)[j - 1];
        var x := Paragraphs(t)[j - 1][k];
        assert x in t;
        var m :| 0 <= m < |t| && t[m] == x;
        assert s[c.end + m] == x;
      }
      forall k | 0 <= k < |Paragraphs(s)[0]|
        ensures Paragraphs(s)[0][k] in s
      {
        assert s[k] == Paragraphs(s)[0][k];
      }
  }

  /** Scanning a suffix sees the same white run as scanning the text there. */
  lemma WhiteRunEndSuffix(s: string, e: nat)
    requires e <= |s|
    ensures WhiteRunEnd(s[e..], 0) + e == WhiteRunEnd(s, e)
  {
  }

  /** The paragraphs of a text that ends with ink and whose leading white
      space holds no line feed each carry ink. */
  lemma {:induction false} ParagraphsCarryInkFrom(t: string)
    requires t != [] && !IsWhite(t[|t| - 1])
    requires CleanLead(t, 0)
    ensures forall j :: 0 <= j < |Paragraphs(t)| ==> !Blank(Paragraphs(t)[j])
    decreases |t|
  {
    var f := WhiteRunEnd(t, 0);
    assert f < |t|;
    match FirstBreak(t, 0)
    case None =>
      assert !IsWhite(t[f]);
    case Some(c) =>
      FirstParagraphInked(t, c);
      var u := t[c.end..];
      assert u[|u| - 1] == t[|t| - 1];
      RestHasCleanLead(t, c);
      ParagraphsCarryInkFrom(u);
      ParagraphsUnfold(t, c);
  }

  /** With no line feed in the leading white space, the text before the first
      break carries ink: the break's line feed comes after the first ink. */
  lemma FirstParagraphInked(t: string, c: Cut)
    requires FirstBreak(t, 0) == Some(c)
    requires CleanLead(t, 0)
    ensures !Blank(t[..c.at])
  {
    var f := WhiteRunEnd(t, 0);
    assert t[c.at] == '\n';
    assert c.at > f;
    assert !IsWhite(t[..c.at][f]);
  }

  /** After a break the white run holds no line feed: the match took them all. */
  lemma RestHasCleanLead(t: string, c: Cut)
    requires FirstBreak(t, 0) == Some(c)
    ensures CleanLead(t[c.end..], 0)
  {
    var u := t[c.end..];
    WhiteRunEndSuffix(t, c.end);
    forall k | 0 <= k < WhiteRunEnd(u, 0)
      ensures u[k] != '\n'
    {
      assert u[k] == t[c.end + k];
    }
  }

  /** A non-empty trimmed text splits into paragraphs that all carry ink: a
      blank paragraph can only come from white space at either end. */
  lemma ParagraphsOfTrimmedCarryInk(s: string)
    requires IsTrimmed(s) && s != []
    ensures forall j :: 0 <= j < |Paragraphs(s)| ==> !Blank(Paragraphs(s)[j])
  {
    assert WhiteRunEnd(s, 0) == 0;
    ParagraphsCarryInkFrom(s);
  }
}
