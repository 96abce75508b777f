/** Answer arbitration in the `/ask` handler. When the question-answering
    model loaded, it is asked once per candidate, in rank order; a call that
    throws is skipped, and a result replaces the best so far only when its
    score is strictly greater (so the first of equal scores stays). When the
    best answer is still empty, whether because nothing was kept or because
    the kept answer is the empty string, the top candidate's text (or a
    placeholder) is answered with score 0. */
module Arbiter {
  import opened Wrappers
  import opened Retrieval

  /** What the question-answering model returns for one context. */
  datatype QaOutput = QaOutput(answer: string, score: real)

  /** One call of the model on (question, context); `None` when it throws. */
  type QaModel = (string, string) -> Option<QaOutput>

  /** The model handle: missing when loading it failed at start-up. */
  datatype Extractor = Disabled | Enabled(qa: QaModel)

  /** A JavaScript score that may still be the initial `-Infinity`. */
  datatype Confidence = NegInf | Finite(value: real)

  /** `x > c` on JavaScript numbers: every real exceeds `-Infinity`. */
  predicate Exceeds(x: real, c: Confidence) {
    c.NegInf? || x > c.value
  }

  /** The handler's `best` record. */
  datatype Best = Best(answer: string, score: Confidence, source: Option<int>)

  /** `{ answer: "", score: -Infinity, source: null }`. */
  const NoBest := Best("", NegInf, None)

  /** The answer given when there is no candidate text to fall back on. */
  const NoAnswer := "(sem resposta encontrada)"

  /** One turn of the loop over candidates. */
  function Consider(qa: QaModel, question: string, best: Best, c: Scored): Best {
    match qa(question, c.chunk.text)
    case None => best
    case Some(out) =>
      if Exceeds(out.score, best.score) then Best(out.answer, Finite(out.score), Some(c.chunk.id))
      else best
  }

  /** The loop over all candidates, starting from `NoBest`: either nothing
      was kept, or a scored answer from one of the candidates was. */
  function Scan(qa: QaModel, question: string, cands: seq<Scored>): (b: Best)
    ensures b == NoBest || (b.score.Finite? && b.source.Some?)
    ensures b.source.Some? ==> exists i :: 0 <= i < |cands| && b.source.value == cands[i].chunk.id
  {
    if cands == [] then NoBest
    else
      var init := cands[..|cands| - 1];
      var prev := Scan(qa, question, init);
      assert prev.source.Some? ==> exists i :: 0 <= i < |cands| - 1 && prev.source.value == cands[i].chunk.id;
      Consider(qa, question, prev, cands[|cands| - 1])
  }

  /** The best answer before the fallback: no call at all when the model is
      missing. */
  function Select(ex: Extractor, question: string, cands: seq<Scored>): Best {
    match ex
    case Disabled => NoBest
    case Enabled(qa) => Scan(qa, question, cands)
  }

  /** Candidate `i`'s call returned. */
  predicate Succeeds(qa: QaModel, question: string, cands: seq<Scored>, i: nat)
    requires i < |cands|
  {
    qa(question, cands[i].chunk.text).Some?
  }

  /** The score candidate `i`'s call returned. */
  function Conf(qa: QaModel, question: string, cands: seq<Scored>, i: nat): real
    requires i < |cands| && Succeeds(qa, question, cands, i)
  {
    qa(question, cands[i].chunk.text).value.score
  }

  /** Candidate `i` holds the first of the greatest scores among the calls
      that returned. */
  predicate IsWinner(qa: QaModel, question: string, cands: seq<Scored>, i: nat)
    requires i < |cands|
  {
    && Succeeds(qa, question, cands, i)
    && (forall j :: 0 <= j < i && Succeeds(qa, question, cands, j) ==>
          Conf(qa, question, cands, j) < Conf(qa, question, cands, i))
    && (forall j :: i < j < |cands| && Succeeds(qa, question, cands, j) ==>
          Conf(qa, question, cands, j) <= Conf(qa, question, cands, i))
  }

  /** The record kept for candidate `i`'s answer. */
  function Pick(qa: QaModel, question: string, cands: seq<Scored>, i: nat): Best
    requires i < |cands| && Succeeds(qa, question, cands, i)
  {
    var out := qa(question, cands[i].chunk.text).value;
    Best(out.answer, Finite(out.score), Some(cands[i].chunk.id))
  }

  /** At most one candidate holds the first of the greatest scores. */
  lemma WinnerIsUnique(qa: QaModel, question: string, cands: seq<Scored>, i: nat, j: nat)
    requires i < |cands| && j < |cands|
    requires IsWinner(qa, question, cands, i) && IsWinner(qa, question, cands, j)
    ensures i == j
  {
  }

  /** A candidate before the last behaves the same in the whole list as in
      the list without the last one. */
  lemma PrefixAgrees(qa: QaModel, question: string, cands: seq<Scored>)
    requires cands != []
    ensures var init := cands[..|cands| - 1];
      forall j :: 0 <= j < |init| ==>
        && Succeeds(qa, question, init, j) == Succeeds(qa, question, cands, j)
        && (Succeeds(qa, question, init, j) ==>
              Conf(qa, question, init, j) == Conf(qa, question, cands, j) && Pick(qa, question, init, j) == Pick(qa, question, cands, j))
  {
  }

  /** The winner so far stays the winner when the last call throws or scores
      no higher. */
  lemma WinnerStays(qa: QaModel, question: string, cands: seq<Scored>, i: nat)
    requires i < |cands| - 1 && IsWinner(qa, question, cands[..|cands| - 1], i)
    requires Succeeds(qa, question, cands, |cands| - 1) ==>
      Conf(qa, question, cands, |cands| - 1) <= Conf(qa, question, cands, i)
    ensures IsWinner(qa, question, cands, i)
    ensures Pick(qa, question, cands[..|cands| - 1], i) == Pick(qa, question, cands, i)
  {
    PrefixAgrees(qa, question, cands);
  }

  /** The last call wins when it scores strictly above every earlier call that
      returned. */
  lemma LastWins(qa: QaModel, question: string, cands: seq<Scored>)
    requires cands != [] && Succeeds(qa, question, cands, |cands| - 1)
    requires forall j :: 0 <= j < |cands| - 1 && Succeeds(qa, question, cands, j) ==>
      Conf(qa, question, cands, j) < Conf(qa, question, cands, |cands| - 1)
    ensures IsWinner(qa, question, cands, |cands| - 1)
  {
  }

  /** The loop keeps nothing exactly when every call threw; otherwise it keeps
      the answer of the first candidate with the strictly greatest score. */
  lemma {:induction false} ScanPicksFirstBest(qa: QaModel, question: string, cands: seq<Scored>)
    ensures Scan(qa, question, cands) == NoBest <==>
      forall i :: 0 <= i < |cands| ==> !Succeeds(qa, question, cands, i)
    ensures Scan(qa, question, cands) != NoBest ==>
      exists i :: 0 <= i < |cands| && IsWinner(qa, question, cands, i) && Scan(qa, question, cands) == Pick(qa, question, cands, i)
  {
    if cands != [] {
      var n := |cands| - 1;
      var init := cands[..n];
      ScanPicksFirstBest(qa, question, init);
      var prev := Scan(qa, question, init);
      assert Scan(qa, question, cands) == Consider(qa, question, prev, cands[n]);
      PrefixAgrees(qa, question, cands);
      if !Succeeds(qa, question, cands, n) {
        if prev != NoBest {
          var i :| 0 <= i < n && IsWinner(qa, question, init, i) && prev == Pick(qa, question, init, i);
          WinnerStays(qa, question, cands, i);
          assert IsWinner(qa, question, cands, i) && Scan(qa, question, cands) == Pick(qa, question, cands, i);
        }
      } else if prev == NoBest {
        LastWins(qa, question, cands);
        assert IsWinner(qa, question, cands, n) && Scan(qa, question, cands) == Pick(qa, question, cands, n);
      } else {
        var i :| 0 <= i < n && IsWinner(qa, question, init, i) && prev == Pick(qa, question, init, i);
        if Conf(qa, question, cands, n) > Conf(qa, question, cands, i) {
          LastWins(qa, question, cands);
          assert IsWinner(qa, question, cands, n) && Scan(qa, question, cands) == Pick(qa, question, cands, n);
        } else {
          WinnerStays(qa, question, cands, i);
          assert IsWinner(qa, question, cands, i) && Scan(qa, question, cands) == Pick(qa, question, cands, i);
        }
      }
    }
  }

  /** A call that throws changes nothing: the loop over the candidates equals
      the loop over the candidates without the failing one. */
  lemma {:induction false} FailedCallIsSkipped(qa: QaModel, question: string, cands: seq<Scored>, k: nat)
    requires k < |cands| && !Succeeds(qa, question, cands, k)
    ensures Scan(qa, question, cands) == Scan(qa, question, cands[..k] + cands[k + 1..])
    decreases |cands|
  {
    var n := |cands| - 1;
    var rest := cands[..k] + cands[k + 1..];
    if k == n {
      assert rest == cands[..n];
    } else {
      FailedCallIsSkipped(qa, question, cands[..n], k);
      assert rest[..|rest| - 1] == cands[..n][..k] + cands[..n][k + 1..];
      assert rest[|rest| - 1] == cands[n];
    }
  }

  /** `if (!best.answer)`: an empty answer is replaced by the top
      candidate's text, or the placeholder, with score 0; `source` takes the
      top candidate's id unless it is 0 (falsy) or there is no candidate. */
  function Fallback(best: Best, cands: seq<Scored>): (r: Best)
    ensures r.answer != []
    ensures best.answer != [] ==> r == best
    ensures best.answer == [] ==> r.score == Finite(0.0)
    ensures best.answer == [] && cands != [] && cands[0].chunk.text != [] ==> r.answer == cands[0].chunk.text
    ensures best.answer == [] && (cands == [] || cands[0].chunk.text == []) ==> r.answer == NoAnswer
  {
    if best.answer != [] then best
    else
      Best(if cands != [] && cands[0].chunk.text != [] then cands[0].chunk.text else NoAnswer,
           Finite(0.0),
           if cands != [] && cands[0].chunk.id != 0 then Some(cands[0].chunk.id) else None)
  }

  /** The answer the handler settles on: never empty, with a real score
      (never the initial `-Infinity`). */
  function Arbitrate(ex: Extractor, question: string, cands: seq<Scored>): (r: Best)
    ensures r.answer != [] && r.score.Finite?
  {
    Fallback(Select(ex, question, cands), cands)
  }

  /** Without the model, the answer is the top candidate's text (or the
      placeholder) and the score is 0, whatever the question. */
  lemma DisabledFallsBack(question: string, cands: seq<Scored>)
    ensures var r := Arbitrate(Disabled, question, cands);
      && r.score == Finite(0.0)
      && r.answer == (if cands != [] && cands[0].chunk.text != [] then cands[0].chunk.text else NoAnswer)
  {
  }

  /** With the model, a non-empty winning answer is what the handler answers,
      with the winner's score. */
  lemma EnabledAnswersWinner(qa: QaModel, question: string, cands: seq<Scored>, i: nat)
    requires i < |cands| && IsWinner(qa, question, cands, i)
    requires qa(question, cands[i].chunk.text).value.answer != []
    ensures Arbitrate(Enabled(qa), question, cands).answer == qa(question, cands[i].chunk.text).value.answer
    ensures Arbitrate(Enabled(qa), question, cands).score == Finite(Conf(qa, question, cands, i))
  {
    ScanPicksFirstBest(qa, question, cands);
    if Scan(qa, question, cands) != NoBest {
      var w :| 0 <= w < |cands| && IsWinner(qa, question, cands, w) && Scan(qa, question, cands) == Pick(qa, question, cands, w);
      WinnerIsUnique(qa, question, cands, i, w);
    }
  }

  /** With the model, an empty winning answer still triggers the fallback,
      even when a lower-scoring candidate had a non-empty answer. */
  lemma EnabledEmptyWinnerFallsBack(qa: QaModel, question: string, cands: seq<Scored>, i: nat)
    requires i < |cands| && IsWinner(qa, question, cands, i)
    requires qa(question, cands[i].chunk.text).value.answer == []
    ensures Arbitrate(Enabled(qa), question, cands).score == Finite(0.0)
    ensures Arbitrate(Enabled(qa), question, cands).answer == (if cands[0].chunk.text != [] then cands[0].chunk.text else NoAnswer)
  {
    ScanPicksFirstBest(qa, question, cands);
    if Scan(qa, question, cands) != NoBest {
      var w :| 0 <= w < |cands| && IsWinner(qa, question, cands, w) && Scan(qa, question, cands) == Pick(qa, question, cands, w);
      WinnerIsUnique(qa, question, cands, i, w);
    }
  }

  function ExampleCandidate(id: int, text: string): Scored {
    Scored(StoredChunk(id, text, []), 0.5)
  }

  /** Scores 0.2, 0.9 and 0.5 on three candidates: the 0.9 answer wins. */
  lemma HighestScoreWinsExample()
    ensures var qa := (q: string, ctx: string) =>
        if ctx == "a" then Some(QaOutput("low", 0.2))
        else if ctx == "b" then Some(QaOutput("high", 0.9))
        else Some(QaOutput("mid", 0.5));
      var cands := [ExampleCandidate(1, "a"), ExampleCandidate(2, "b"), ExampleCandidate(3, "c")];
      Arbitrate(Enabled(qa), "q?", cands) == Best("high", Finite(0.9), Some(2))
  {
    var qa := (q: string, ctx: string) =>
        if ctx == "a" then Some(QaOutput("low", 0.2))
        else if ctx == "b" then Some(QaOutput("high", 0.9))
        else Some(QaOutput("mid", 0.5));
    var cands := [ExampleCandidate(1, "a"), ExampleCandidate(2, "b"), ExampleCandidate(3, "c")];
    assert cands[..2] == [ExampleCandidate(1, "a"), ExampleCandidate(2, "b")];
    assert cands[..2][..1] == [ExampleCandidate(1, "a")];
    assert Scan(qa, "q?", cands[..2][..1]) == Best("low", Finite(0.2), Some(1));
    assert Scan(qa, "q?", cands[..2]) == Best("high", Finite(0.9), Some(2));
  }
}
