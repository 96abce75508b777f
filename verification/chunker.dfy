/** `chunkText` of the knowledge builder: carriage returns are dropped, the
    text is cut into paragraphs at blank lines, and the paragraphs are packed
    greedily, in order, into buffers joined by a blank line. A buffer is
    flushed (trimmed) only when adding the next paragraph would take it past
    the length target and it is not empty; after the loop the last buffer is
    kept if it trims to something. Chunks are numbered from 1. */
module Chunker {
  import opened JsText
  import opened Wrappers
  import opened BlankLineSplit

  /** The length target `main` passes to `chunkText`. */
  const MaxLen: int := 1200

  /** A chunk as `chunkText` returns it, before any embedding is attached. */
  datatype Chunk = Chunk(id: int, text: string)

  /** The candidate buffer `buf ? buf + "\n\n" + p : p`: an empty buffer is
      falsy and is replaced rather than joined. */
  function Glue(buf: string, p: string): string {
    if buf != [] then buf + "\n\n" + p else p
  }

  /** The loop's state: the chunk texts pushed so far and the open buffer. */
  datatype Packing = Packing(done: seq<string>, buf: string)

  /** One turn of the loop over the paragraphs, as written. */
  function Step(st: Packing, p: string, maxLen: int): Packing {
    var cand := Glue(st.buf, p);
    if |cand| > maxLen && st.buf != [] then Packing(st.done + [Trim(st.buf)], p)
    else Packing(st.done, cand)
  }

  /** The loop's state once it has consumed `ps`, starting from nothing. */
  function Pack(ps: seq<string>, maxLen: int): (st: Packing)
    ensures forall i :: 0 <= i < |st.done| ==> IsTrimmed(st.done[i])
  {
    if ps == [] then Packing([], [])
    else Step(Pack(ps[..|ps| - 1], maxLen), ps[|ps| - 1], maxLen)
  }

  /** After the loop: the open buffer becomes the last chunk only if it trims
      to ink. */
  function Finish(st: Packing): seq<string> {
    if Trim(st.buf) != [] then st.done + [Trim(st.buf)] else st.done
  }

  /** `chunks.map((t, i) => ({ id: i + 1, text: t }))`. */
  function Number(texts: seq<string>): (cs: seq<Chunk>)
    ensures |cs| == |texts|
    ensures forall i :: 0 <= i < |cs| ==> cs[i].id == i + 1 && cs[i].text == texts[i]
  {
    seq(|texts|, i requires 0 <= i < |texts| => Chunk(i + 1, texts[i]))
  }

  /** The paragraphs `chunkText` loops over. */
  function TextParagraphs(text: string): seq<string> {
    Paragraphs(StripCR(text))
  }

  /** Text without carriage returns. */
  predicate NoCR(s: string) {
    '\r' !in s
  }

  lemma TrimKeepsNoCR(s: string)
    requires NoCR(s)
    ensures NoCR(Trim(s))
  {
    var i := TrimCutsWhiteEnds(s);
  }

  /** Packing paragraphs free of `\r` produces chunk texts free of `\r`. */
  lemma {:induction false} PackKeepsNoCR(ps: seq<string>, maxLen: int)
    requires forall j :: 0 <= j < |ps| ==> NoCR(ps[j])
    ensures NoCR(Pack(ps, maxLen).buf)
    ensures forall i :: 0 <= i < |Pack(ps, maxLen).done| ==> NoCR(Pack(ps, maxLen).done[i])
  {
    if ps != [] {
      var st := Pack(ps[..|ps| - 1], maxLen);
      PackKeepsNoCR(ps[..|ps| - 1], maxLen);
      TrimKeepsNoCR(st.buf);
      var p := ps[|ps| - 1];
      assert NoCR(p);
      assert NoCR(Glue(st.buf, p));
    }
  }

  lemma ParagraphsKeepNoCR(s: string)
    requires NoCR(s)
    ensures forall j :: 0 <= j < |Paragraphs(s)| ==> NoCR(Paragraphs(s)[j])
  {
    ParagraphCharsFromText(s);
  }

  /** `chunkText(text, maxLen)` as written. Ids run 1..n in emission order,
      every chunk text starts and ends with ink or is empty, no chunk holds a
      carriage return, and an empty text gives no chunk. */
  function ChunkText(text: string, maxLen: int): (cs: seq<Chunk>)
    ensures forall i :: 0 <= i < |cs| ==> cs[i].id == i + 1
    ensures forall i :: 0 <= i < |cs| ==> IsTrimmed(cs[i].text)
    ensures forall i :: 0 <= i < |cs| ==> NoCR(cs[i].text)
    ensures text == [] ==> cs == []
  {
    var ps := TextParagraphs(text);
    StripCRChars(text);
    ParagraphsKeepNoCR(StripCR(text));
    PackKeepsNoCR(ps, maxLen);
    var st := Pack(ps, maxLen);
    TrimKeepsNoCR(st.buf);
    EmptyTextNoParagraphText(text, maxLen);
    Number(Finish(st))
  }

  lemma EmptyTextNoParagraphText(text: string, maxLen: int)
    ensures text == [] ==> Finish(Pack(TextParagraphs(text), maxLen)) == []
  {
    if text == [] {
      assert FirstBreak([], 0) == None;
      assert TextParagraphs(text) == [[]];
      assert Pack([[]], maxLen) == Packing([], []);
    }
  }

  /** The flush at the top of the loop pushes `buf.trim()` without the check
      the final push has, so a white-only paragraph followed by one that does
      not fit becomes an empty chunk. */
  lemma ChunkTextCanEmitEmptyChunk()
    ensures ChunkText(" \n\n  ", 2) == [Chunk(1, "")]
  {
    TextParagraphsExample();
    PackExample();
    ChunkTextOfPacking(" \n\n  ", 2, [" ", "  "]);
    NumberOneEmpty();
  }

  lemma NumberOneEmpty()
    ensures Number([[]]) == [Chunk(1, [])]
  {
  }

  /** `chunkText` numbers what the loop leaves for the paragraphs. */
  lemma ChunkTextOfPacking(text: string, maxLen: int, ps: seq<string>)
    requires TextParagraphs(text) == ps
    ensures ChunkText(text, maxLen) == Number(Finish(Pack(ps, maxLen)))
  {
  }

  lemma TextParagraphsExample()
    ensures TextParagraphs(" \n\n  ") == [" ", "  "]
  {
    assert '\r' !in " \n\n  ";
    SplitExample();
  }

  lemma SplitExample()
    ensures Paragraphs(" \n\n  ") == [" ", "  "]
  {
    var s := " \n\n  ";
    assert WhiteRunEnd(s, 2) == 5;
    assert LastNewline(s, 2, 5) == 2;
    assert BreakAt(s, 0) == None;
    assert BreakAt(s, 1) == Some(3);
    assert FirstBreak(s, 0) == Some(Cut(1, 3));
    assert s[3..] == "  ";
    assert BreakAt("  ", 0) == None;
    assert BreakAt("  ", 1) == None;
    assert FirstBreak("  ", 0) == None;
    assert SplitBlankLines("  ") == Split(["  "], []);
    assert s[..1] == " ";
  }

  lemma PackExample()
    ensures Finish(Pack([" ", "  "], 2)) == [[]]
  {
    assert [" ", "  "][..1] == [" "];
    assert Pack([" "], 2) == Packing([], " ");
    assert Trim(" ") == [];
    assert Pack([" ", "  "], 2) == Packing([[]], "  ");
    assert Trim("  ") == [];
  }

  /** The flush with the same guard as the final push: a buffer that trims to
      nothing is dropped instead of pushed. */
  function StepFixed(st: Packing, p: string, maxLen: int): Packing {
    var cand := Glue(st.buf, p);
    if |cand| > maxLen && st.buf != [] then
      Packing(if Trim(st.buf) != [] then st.done + [Trim(st.buf)] else st.done, p)
    else Packing(st.done, cand)
  }

  function PackFixed(ps: seq<string>, maxLen: int): (st: Packing)
    ensures forall i :: 0 <= i < |st.done| ==> st.done[i] != [] && IsTrimmed(st.done[i])
  {
    if ps == [] then Packing([], [])
    else StepFixed(PackFixed(ps[..|ps| - 1], maxLen), ps[|ps| - 1], maxLen)
  }

  /** Gluing white-only paragraphs keeps the buffer white-only, so the
      corrected loop pushes nothing. */
  lemma {:induction false} PackFixedOfBlank(ps: seq<string>, maxLen: int)
    requires forall j :: 0 <= j < |ps| ==> Blank(ps[j])
    ensures PackFixed(ps, maxLen).done == []
    ensures Blank(PackFixed(ps, maxLen).buf)
  {
    if ps != [] {
      PackFixedOfBlank(ps[..|ps| - 1], maxLen);
      var st := PackFixed(ps[..|ps| - 1], maxLen);
      assert Trim(st.buf) == [];
      var p := ps[|ps| - 1];
      assert Blank(p);
      assert Blank(Glue(st.buf, p));
    }
  }

  lemma BlankParagraphs(s: string)
    requires Blank(s)
    ensures forall j :: 0 <= j < |Paragraphs(s)| ==> Blank(Paragraphs(s)[j])
  {
    ParagraphCharsFromText(s);
    forall j | 0 <= j < |Paragraphs(s)|
      ensures Blank(Paragraphs(s)[j])
    {
      forall k | 0 <= k < |Paragraphs(s)[j]|
        ensures IsWhite(Paragraphs(s)[j][k])
      {
        assert Paragraphs(s)[j][k] in s;
      }
    }
  }

  /** `chunkText` with the corrected flush: ids run 1..n, every chunk text is
      trimmed, free of `\r` and non-empty, and a text without ink gives no
      chunk at all. */
  function ChunkTextFixed(text: string, maxLen: int): (cs: seq<Chunk>)
    ensures forall i :: 0 <= i < |cs| ==> cs[i].id == i + 1
    ensures forall i :: 0 <= i < |cs| ==> cs[i].text != [] && IsTrimmed(cs[i].text)
    ensures Blank(text) ==> cs == []
  {
    var st := PackFixed(TextParagraphs(text), maxLen);
    BlankTextPacksNothing(text, maxLen);
    Number(Finish(st))
  }

  lemma BlankTextPacksNothing(text: string, maxLen: int)
    ensures Blank(text) ==> PackFixed(TextParagraphs(text), maxLen).done == []
    ensures Blank(text) ==> Blank(PackFixed(TextParagraphs(text), maxLen).buf)
  {
    if Blank(text) {
      StripCRChars(text);
      assert Blank(StripCR(text)) by {
        forall k | 0 <= k < |StripCR(text)|
          ensures IsWhite(StripCR(text)[k])
        {
          assert StripCR(text)[k] in text;
        }
      }
      BlankParagraphs(StripCR(text));
      PackFixedOfBlank(TextParagraphs(text), maxLen);
    }
  }

  /** When every paragraph carries ink, no flushed buffer is white-only and
      the two loops agree step for step. */
  lemma {:induction false} PackAgreesOnInkedParagraphs(ps: seq<string>, maxLen: int)
    requires forall j :: 0 <= j < |ps| ==> !Blank(ps[j])
    ensures Pack(ps, maxLen) == PackFixed(ps, maxLen)
    ensures Pack(ps, maxLen).buf == [] || !Blank(Pack(ps, maxLen).buf)
  {
    if ps != [] {
      var init := ps[..|ps| - 1];
      PackAgreesOnInkedParagraphs(init, maxLen);
      var st := Pack(init, maxLen);
      var p := ps[|ps| - 1];
      assert !Blank(p);
      if st.buf != [] {
        assert Trim(st.buf) != [];
        assert !Blank(Glue(st.buf, p)) by {
          var k :| 0 <= k < |p| && !IsWhite(p[k]);
          assert Glue(st.buf, p)[|st.buf| + 2 + k] == p[k];
        }
      }
    }
  }

  /** On a text that starts and ends with ink, which is all `main` ever passes
      (it trims the extracted text first), the as-written and the corrected
      chunker produce the same chunks. */
  lemma ChunkTextAgreesOnTrimmed(text: string, maxLen: int)
    requires IsTrimmed(text)
    ensures ChunkText(text, maxLen) == ChunkTextFixed(text, maxLen)
  {
    var s := StripCR(text);
    StripCRKeepsTrimmed(text);
    if s == [] {
      assert TextParagraphs(text) == [[]];
      assert Pack([[]], maxLen) == PackFixed([[]], maxLen);
    } else {
      ParagraphsOfTrimmedCarryInk(s);
      PackAgreesOnInkedParagraphs(TextParagraphs(text), maxLen);
    }
  }
}
