/** What the chunker's packing loop computes, stated without the loop: the
    paragraphs are cut, in order, into groups; inside a group every paragraph
    joined to a non-empty buffer kept it within the target; and a group is
    closed only when it is non-empty and the next paragraph would overflow it.
    The loop's groups are the only grouping with these properties. */
module GreedyPacking {
  import opened JsText
  import opened Chunker

  /** The buffer the loop builds from a group's paragraphs, starting empty. */
  function Buffer(g: seq<string>): string {
    if g == [] then [] else Glue(Buffer(g[..|g| - 1]), g[|g| - 1])
  }

  /** The groups' paragraphs, in order. */
  function Flatten(gs: seq<seq<string>>): seq<string> {
    if gs == [] then [] else Flatten(gs[..|gs| - 1]) + gs[|gs| - 1]
  }

  /** Each paragraph after the first was joined to an empty buffer, or the
      joined buffer stayed within the target. */
  ghost predicate Fits(g: seq<string>, maxLen: int) {
    |g| <= 1 || (Fits(g[..|g| - 1], maxLen) && (Buffer(g[..|g| - 1]) == [] || |Buffer(g)| <= maxLen))
  }

  /** Closed group `i` was closed for a reason: its buffer is non-empty and
      gluing the paragraph that follows it (the first of the next group, or
      of the open group after the last closed one) would pass the target. */
  ghost predicate Overflows(gs: seq<seq<string>>, last: seq<string>, i: nat, maxLen: int)
    requires i < |gs|
  {
    var next := if i + 1 < |gs| then gs[i + 1] else last;
    next != [] && Buffer(gs[i]) != [] && |Glue(Buffer(gs[i]), next[0])| > maxLen
  }

  /** `gs` (closed groups) and `last` (the open buffer's paragraphs) are a
      greedy packing of `ps`. */
  ghost predicate IsGreedyGrouping(ps: seq<string>, gs: seq<seq<string>>, last: seq<string>, maxLen: int) {
    && Flatten(gs) + last == ps
    && (ps != [] ==> last != [])
    && Fits(last, maxLen)
    && (forall i :: 0 <= i < |gs| ==> gs[i] != [] && Fits(gs[i], maxLen))
    && (forall i :: 0 <= i < |gs| ==> Overflows(gs, last, i, maxLen))
  }

  datatype Grouping = Grouping(groups: seq<seq<string>>, last: seq<string>)

  /** The groups the loop forms, paragraph by paragraph. */
  ghost function Groups(ps: seq<string>, maxLen: int): Grouping {
    if ps == [] then Grouping([], [])
    else
      var g := Groups(ps[..|ps| - 1], maxLen);
      var p := ps[|ps| - 1];
      if |Glue(Buffer(g.last), p)| > maxLen && Buffer(g.last) != [] then Grouping(g.groups + [g.last], [p])
      else Grouping(g.groups, g.last + [p])
  }

  /** Taking a sequence apart at its last element and putting it back. Stated
      for any element type so that the solver never looks inside the
      elements. */
  lemma SnocLast<T>(s: seq<T>)
    requires s != []
    ensures s[..|s| - 1] + [s[|s| - 1]] == s
  {
  }

  /** Appending to a sequence keeps it as a prefix. */
  lemma PrefixOfSnoc<T>(s: seq<T>, x: T)
    ensures (s + [x])[..|s|] == s && (s + [x])[..|s| + 1] == s + [x]
  {
  }

  /** The loop's buffer after one more paragraph. */
  lemma BufferSnoc(g: seq<string>, p: string)
    ensures Buffer(g + [p]) == Glue(Buffer(g), p)
  {
    PrefixOfSnoc(g, p);
  }

  lemma FlattenSnoc(gs: seq<seq<string>>, g: seq<string>)
    ensures Flatten(gs + [g]) == Flatten(gs) + g
  {
    PrefixOfSnoc(gs, g);
  }

  lemma FlattenOfNonEmptyGroups(gs: seq<seq<string>>)
    requires gs != [] && gs[|gs| - 1] != []
    ensures Flatten(gs) != []
  {
  }

  /** The chunk texts a list of closed groups is flushed as. */
  function TrimmedBuffers(gs: seq<seq<string>>): (ts: seq<string>)
    ensures |ts| == |gs|
  {
    seq(|gs|, i requires 0 <= i < |gs| => Trim(Buffer(gs[i])))
  }

  /** The loop's step, unfolded once, when the last paragraph overflows a
      non-empty buffer: the buffer is closed and the paragraph opens a group. */
  lemma GroupsFlush(ps: seq<string>, maxLen: int)
    requires ps != []
    requires var g := Groups(ps[..|ps| - 1], maxLen);
      Buffer(g.last) != [] && |Glue(Buffer(g.last), ps[|ps| - 1])| > maxLen
    ensures var g := Groups(ps[..|ps| - 1], maxLen);
      Groups(ps, maxLen) == Grouping(g.groups + [g.last], [ps[|ps| - 1]])
  {
  }

  /** The loop's step, unfolded once, when the last paragraph fits or the
      buffer is empty: the paragraph joins the open group. */
  lemma GroupsJoin(ps: seq<string>, maxLen: int)
    requires ps != []
    requires var g := Groups(ps[..|ps| - 1], maxLen);
      Buffer(g.last) == [] || |Glue(Buffer(g.last), ps[|ps| - 1])| <= maxLen
    ensures var g := Groups(ps[..|ps| - 1], maxLen);
      Groups(ps, maxLen) == Grouping(g.groups, g.last + [ps[|ps| - 1]])
  {
  }

  /** Closing one more group adds its trimmed buffer to the flushed texts. */
  lemma TrimmedBuffersSnoc(gs: seq<seq<string>>, g: seq<string>)
    ensures TrimmedBuffers(gs + [g]) == TrimmedBuffers(gs) + [Trim(Buffer(g))]
  {
  }

  /** The loop's state follows the groups: the pushed texts are the closed
      groups' trimmed buffers and the open buffer is the open group's. */
  lemma {:induction false} PackFollowsGroups(ps: seq<string>, maxLen: int)
    ensures Pack(ps, maxLen).buf == Buffer(Groups(ps, maxLen).last)
    ensures Pack(ps, maxLen).done == TrimmedBuffers(Groups(ps, maxLen).groups)
  {
    if ps != [] {
      var init := ps[..|ps| - 1];
      var p := ps[|ps| - 1];
      PackFollowsGroups(init, maxLen);
      var g := Groups(init, maxLen);
      assert Pack(ps, maxLen) == Step(Pack(init, maxLen), p, maxLen);
      if |Glue(Buffer(g.last), p)| > maxLen && Buffer(g.last) != [] {
        GroupsFlush(ps, maxLen);
        TrimmedBuffersSnoc(g.groups, g.last);
        assert Buffer([p]) == p by {
          assert [p][..0] == [];
        }
      } else {
        GroupsJoin(ps, maxLen);
        BufferSnoc(g.last, p);
      }
    }
  }

  /** Adding one more paragraph to a group keeps it fitting when the buffer
      was empty or the join stays within the target. */
  lemma FitsSnoc(g: seq<string>, p: string, maxLen: int)
    requires Fits(g, maxLen)
    requires Buffer(g) == [] || |Glue(Buffer(g), p)| <= maxLen
    ensures Fits(g + [p], maxLen)
  {
    PrefixOfSnoc(g, p);
    BufferSnoc(g, p);
  }

  /** Closing the open group because the next paragraph overflows it keeps
      the grouping greedy. */
  lemma GreedyAfterFlush(init: seq<string>, p: string, gs: seq<seq<string>>, last: seq<string>, maxLen: int)
    requires IsGreedyGrouping(init, gs, last, maxLen)
    requires Buffer(last) != [] && |Glue(Buffer(last), p)| > maxLen
    ensures IsGreedyGrouping(init + [p], gs + [last], [p], maxLen)
  {
    FlattenSnoc(gs, last);
    var gs' := gs + [last];
    assert Fits([p], maxLen);
    forall i | 0 <= i < |gs'|
      ensures gs'[i] != [] && Fits(gs'[i], maxLen) && Overflows(gs', [p], i, maxLen)
    {
      if i < |gs| {
        assert gs'[i] == gs[i] && Overflows(gs, last, i, maxLen);
      }
    }
  }

  /** Joining the next paragraph to the open group, when it fits or the
      buffer is empty, keeps the grouping greedy. */
  lemma GreedyAfterJoin(init: seq<string>, p: string, gs: seq<seq<string>>, last: seq<string>, maxLen: int)
    requires IsGreedyGrouping(init, gs, last, maxLen)
    requires Buffer(last) == [] || |Glue(Buffer(last), p)| <= maxLen
    ensures IsGreedyGrouping(init + [p], gs, last + [p], maxLen)
  {
    FitsSnoc(last, p, maxLen);
    forall i | 0 <= i < |gs|
      ensures Overflows(gs, last + [p], i, maxLen)
    {
      assert Overflows(gs, last, i, maxLen);
    }
  }

  /** The loop's groups form a greedy grouping. */
  lemma {:induction false} GroupsAreGreedy(ps: seq<string>, maxLen: int)
    ensures IsGreedyGrouping(ps, Groups(ps, maxLen).groups, Groups(ps, maxLen).last, maxLen)
  {
    if ps != [] {
      var init := ps[..|ps| - 1];
      GroupsAreGreedy(init, maxLen);
      var g := Groups(init, maxLen);
      var p := ps[|ps| - 1];
      SnocLast(ps);
      if |Glue(Buffer(g.last), p)| > maxLen && Buffer(g.last) != [] {
        GreedyAfterFlush(init, p, g.groups, g.last, maxLen);
        GroupsFlush(ps, maxLen);
      } else {
        GreedyAfterJoin(init, p, g.groups, g.last, maxLen);
        GroupsJoin(ps, maxLen);
      }
    }
  }

  /** Dropping the last paragraph of a greedy grouping whose open group is
      that paragraph alone leaves a greedy grouping with the last closed group
      reopened. */
  lemma GreedyBeforeFlush(ps: seq<string>, gs: seq<seq<string>>, maxLen: int)
    requires gs != [] && |ps| >= 1
    requires IsGreedyGrouping(ps, gs, [ps[|ps| - 1]], maxLen)
    ensures IsGreedyGrouping(ps[..|ps| - 1], gs[..|gs| - 1], gs[|gs| - 1], maxLen)
  {
    var gs0 := gs[..|gs| - 1];
    var l0 := gs[|gs| - 1];
    assert Flatten(gs) == Flatten(gs0) + l0;
    assert ps[..|ps| - 1] == Flatten(gs) by {
      PrefixOfSnoc(Flatten(gs), ps[|ps| - 1]);
    }
    assert l0 != [] && Fits(l0, maxLen);
    forall i | 0 <= i < |gs0|
      ensures gs0[i] != [] && Fits(gs0[i], maxLen) && Overflows(gs0, l0, i, maxLen)
    {
      assert gs0[i] == gs[i] && Overflows(gs, [ps[|ps| - 1]], i, maxLen);
    }
  }

  /** Dropping the last paragraph of an open group of two or more leaves a
      greedy grouping. */
  lemma GreedyBeforeJoin(ps: seq<string>, gs: seq<seq<string>>, last: seq<string>, maxLen: int)
    requires |last| >= 2
    requires IsGreedyGrouping(ps, gs, last, maxLen)
    ensures IsGreedyGrouping(ps[..|ps| - 1], gs, last[..|last| - 1], maxLen)
  {
    var last0 := last[..|last| - 1];
    assert Flatten(gs) + last0 == ps[..|ps| - 1] by {
      SnocLast(last);
      assert ps == (Flatten(gs) + last0) + [last[|last| - 1]];
      PrefixOfSnoc(Flatten(gs) + last0, last[|last| - 1]);
    }
    forall i | 0 <= i < |gs|
      ensures Overflows(gs, last0, i, maxLen)
    {
      assert Overflows(gs, last, i, maxLen);
    }
  }

  /** In a greedy grouping whose open group is one paragraph, the closed group
      before it overflowed when that paragraph came. */
  lemma LastClosedOverflows(ps: seq<string>, gs: seq<seq<string>>, maxLen: int)
    requires gs != [] && |ps| >= 1
    requires IsGreedyGrouping(ps, gs, [ps[|ps| - 1]], maxLen)
    ensures Buffer(gs[|gs| - 1]) != [] && |Glue(Buffer(gs[|gs| - 1]), ps[|ps| - 1])| > maxLen
  {
    assert Overflows(gs, [ps[|ps| - 1]], |gs| - 1, maxLen);
  }

  /** In a greedy grouping whose open group has two or more paragraphs, the
      last one was joined without overflowing a non-empty buffer. */
  lemma LastJoinFits(gs: seq<seq<string>>, last: seq<string>, ps: seq<string>, maxLen: int)
    requires |last| >= 2
    requires IsGreedyGrouping(ps, gs, last, maxLen)
    ensures var last0 := last[..|last| - 1];
      Buffer(last0) == [] || |Glue(Buffer(last0), last[|last| - 1])| <= maxLen
  {
  }

  /** The open group ends with the last paragraph. */
  lemma OpenGroupEndsText(ps: seq<string>, gs: seq<seq<string>>, last: seq<string>)
    requires Flatten(gs) + last == ps && last != []
    ensures last[|last| - 1] == ps[|ps| - 1]
  {
  }

  /** A greedy grouping is determined by the paragraphs: it is the loop's. */
  lemma {:induction false} GreedyGroupingIsUnique(ps: seq<string>, gs: seq<seq<string>>, last: seq<string>, maxLen: int)
    requires IsGreedyGrouping(ps, gs, last, maxLen)
    ensures Groups(ps, maxLen) == Grouping(gs, last)
    decreases |ps|, 1
  {
    if ps == [] {
      if gs != [] {
        FlattenOfNonEmptyGroups(gs);
      }
    } else if |last| == 1 {
      OpenGroupEndsText(ps, gs, last);
      assert last == [ps[|ps| - 1]];
      UniqueAfterFlush(ps, gs, maxLen);
    } else {
      UniqueAfterJoin(ps, gs, last, maxLen);
    }
  }

  lemma {:induction false} UniqueAfterFlush(ps: seq<string>, gs: seq<seq<string>>, maxLen: int)
    requires ps != []
    requires IsGreedyGrouping(ps, gs, [ps[|ps| - 1]], maxLen)
    ensures Groups(ps, maxLen) == Grouping(gs, [ps[|ps| - 1]])
    decreases |ps|, 0
  {
    var init := ps[..|ps| - 1];
    if gs != [] {
      GreedyBeforeFlush(ps, gs, maxLen);
      LastClosedOverflows(ps, gs, maxLen);
      GreedyGroupingIsUnique(init, gs[..|gs| - 1], gs[|gs| - 1], maxLen);
      FlushStep(ps, gs, maxLen);
    } else {
      assert init == [];
      GroupsJoin(ps, maxLen);
    }
  }

  /** When the groups of all but the last paragraph are `gs` with its last
      group reopened, and that group overflows, the loop flushes it. */
  lemma FlushStep(ps: seq<string>, gs: seq<seq<string>>, maxLen: int)
    requires ps != [] && gs != []
    requires Groups(ps[..|ps| - 1], maxLen) == Grouping(gs[..|gs| - 1], gs[|gs| - 1])
    requires Buffer(gs[|gs| - 1]) != [] && |Glue(Buffer(gs[|gs| - 1]), ps[|ps| - 1])| > maxLen
    ensures Groups(ps, maxLen) == Grouping(gs, [ps[|ps| - 1]])
  {
    GroupsFlush(ps, maxLen);
    SnocLast(gs);
  }

  lemma {:induction false} UniqueAfterJoin(ps: seq<string>, gs: seq<seq<string>>, last: seq<string>, maxLen: int)
    requires |last| >= 2
    requires IsGreedyGrouping(ps, gs, last, maxLen)
    ensures Groups(ps, maxLen) == Grouping(gs, last)
    decreases |ps|, 0
  {
    var init := ps[..|ps| - 1];
    var last0 := last[..|last| - 1];
    OpenGroupEndsText(ps, gs, last);
    GreedyBeforeJoin(ps, gs, last, maxLen);
    LastJoinFits(gs, last, ps, maxLen);
    GreedyGroupingIsUnique(init, gs, last0, maxLen);
    JoinStep(ps, gs, last, maxLen);
  }

  /** When the groups of all but the last paragraph are `gs` and `last`
      without its last paragraph, and that paragraph fits, the loop joins it. */
  lemma JoinStep(ps: seq<string>, gs: seq<seq<string>>, last: seq<string>, maxLen: int)
    requires ps != [] && |last| >= 2 && last[|last| - 1] == ps[|ps| - 1]
    requires Groups(ps[..|ps| - 1], maxLen) == Grouping(gs, last[..|last| - 1])
    requires var last0 := last[..|last| - 1];
      Buffer(last0) == [] || |Glue(Buffer(last0), last[|last| - 1])| <= maxLen
    ensures Groups(ps, maxLen) == Grouping(gs, last)
  {
    GroupsJoin(ps, maxLen);
    SnocLast(last);
  }

  /** The packing loop, seen whole: its pushed texts are the trimmed buffers
      of a greedy grouping of the paragraphs, and its open buffer holds the
      rest. */
  lemma PackIsGreedy(ps: seq<string>, maxLen: int)
    ensures var g := Groups(ps, maxLen);
      && IsGreedyGrouping(ps, g.groups, g.last, maxLen)
      && Pack(ps, maxLen).done == TrimmedBuffers(g.groups)
      && Pack(ps, maxLen).buf == Buffer(g.last)
  {
    GroupsAreGreedy(ps, maxLen);
    PackFollowsGroups(ps, maxLen);
  }

  /** A group's buffer is within the target unless it is just one paragraph:
      an oversized paragraph travels alone and is never cut. */
  lemma FitsBound(g: seq<string>, maxLen: int)
    requires g != [] && Fits(g, maxLen)
    ensures |Buffer(g)| <= maxLen || Buffer(g) == g[|g| - 1]
  {
    if |g| == 1 {
      assert g[..0] == [];
    }
  }

  /** Every buffer the loop flushes, measured before trimming, is within the
      target or is a single paragraph. */
  lemma FlushedBuffersBounded(ps: seq<string>, maxLen: int)
    ensures var gs := Groups(ps, maxLen).groups;
      forall i :: 0 <= i < |gs| ==> gs[i] != [] && (|Buffer(gs[i])| <= maxLen || Buffer(gs[i]) == gs[i][|gs[i]| - 1])
  {
    GroupsAreGreedy(ps, maxLen);
    var gs := Groups(ps, maxLen).groups;
    forall i | 0 <= i < |gs|
      ensures gs[i] != [] && (|Buffer(gs[i])| <= maxLen || Buffer(gs[i]) == gs[i][|gs[i]| - 1])
    {
      FitsBound(gs[i], maxLen);
    }
  }

  /** A buffer that trims to nothing was built from white-only paragraphs. */
  lemma {:induction false} BlankBufferHasBlankParagraphs(g: seq<string>)
    requires Blank(Buffer(g))
    ensures forall j :: 0 <= j < |g| ==> Blank(g[j])
  {
    if g != [] {
      var g0 := g[..|g| - 1];
      var p := g[|g| - 1];
      var b := Buffer(g0);
      if b != [] {
        assert Buffer(g) == b + "\n\n" + p;
        assert forall k :: 0 <= k < |b| ==> b[k] == Buffer(g)[k];
        assert forall k :: 0 <= k < |p| ==> p[k] == Buffer(g)[|b| + 2 + k];
      }
      assert Blank(b);
      BlankBufferHasBlankParagraphs(g0);
    }
  }

  /** `chunkText` in terms of the groups: the chunks are the trimmed closed
      groups, in document order, followed by the open group when it carries
      ink. The open group is dropped only when all its paragraphs are white,
      so no paragraph with ink is lost. */
  lemma ChunkTextKeepsInkedParagraphs(text: string, maxLen: int)
    ensures var g := Groups(TextParagraphs(text), maxLen);
      var kept := if Blank(Buffer(g.last)) then [] else [Trim(Buffer(g.last))];
      && Flatten(g.groups) + g.last == TextParagraphs(text)
      && |ChunkText(text, maxLen)| == |g.groups| + |kept|
      && (forall i :: 0 <= i < |ChunkText(text, maxLen)| ==> ChunkText(text, maxLen)[i].text == (TrimmedBuffers(g.groups) + kept)[i])
      && (Blank(Buffer(g.last)) ==> forall j :: 0 <= j < |g.last| ==> Blank(g.last[j]))
  {
    var ps := TextParagraphs(text);
    PackIsGreedy(ps, maxLen);
    var g := Groups(ps, maxLen);
    if Blank(Buffer(g.last)) {
      BlankBufferHasBlankParagraphs(g.last);
    }
  }
}
