/** The `/ask` request handler as one pure function from the request's
    `question` field and the service's start-up state (the chunk store, the
    embedder, the similarity function and the optional QA model) to the
    response. */
module AskHandler {
  import opened Wrappers
  import opened JsText
  import opened Retrieval
  import opened Arbiter

  /** The `question` field of the JSON body. Absent, `null`, `false`, `0` and
      the other falsy non-strings read as `""`; a truthy value that is not a
      string has no `trim` and makes the handler throw. */
  datatype QuestionField = Missing | Text(s: string) | NonString

  /** One entry of the response's `sources`. */
  datatype Source = Source(id: int, sim: real)

  /** The three responses: 400, 200 and 500. */
  datatype Reply =
    | BadRequest(error: string)
    | Answered(answer: string, sources: seq<Source>, score: Confidence)
    | ServerError(error: string)

  /** Query embedding: `None` when the embedder throws. */
  type Embedder = string -> Option<seq<real>>

  /** What the service loaded at start-up. */
  datatype Service = Service(store: seq<StoredChunk>, embed: Embedder, sim: Similarity, extractor: Extractor)

  const TooShort := "Pergunta muito curta."
  const ProcessingFailed := "Falha ao processar a pergunta."

  /** The shortest question, after trimming, that is looked up. */
  const MinQuestionLength := 3

  /** How many candidates are retrieved per question. */
  const CandidateCount := 3

  /** `(req.body?.question || "").trim()`; `None` when `trim` throws. The
      question read is always trimmed, and it is empty exactly when the field
      is missing or falsy or holds only white space. */
  function QuestionText(f: QuestionField): (r: Option<string>)
    ensures r.None? <==> f.NonString?
    ensures r.Some? ==> IsTrimmed(r.value)
    ensures r == Some([]) <==> f.Missing? || (f.Text? && Blank(f.s))
  {
    match f
    case Missing => Some(Trim([]))
    case Text(s) => Some(Trim(s))
    case NonString => None
  }

  /** `cands.map((c) => ({ id: c.id, sim: c.score }))`. */
  function SourcesOf(cands: seq<Scored>): (ss: seq<Source>)
    ensures |ss| == |cands|
    ensures forall i :: 0 <= i < |ss| ==> ss[i] == Source(cands[i].chunk.id, cands[i].score)
  {
    seq(|cands|, i requires 0 <= i < |cands| => Source(cands[i].chunk.id, cands[i].score))
  }

  /** The top candidates for a question that passed validation. */
  function Candidates(svc: Service, emb: seq<real>): seq<Scored> {
    TopK(svc.store, emb, CandidateCount, svc.sim)
  }

  /** The `/ask` handler. It answers 400 exactly when the trimmed question is
      shorter than three characters, 500 exactly when `trim` or the embedder
      throws, and otherwise a non-empty answer with a real score and one
      source per retrieved candidate (at most three), in descending
      similarity. */
  function Ask(svc: Service, f: QuestionField): (r: Reply)
    ensures r.BadRequest? <==> f.Missing? || (f.Text? && |Trim(f.s)| < MinQuestionLength)
    ensures r.BadRequest? ==> r.error == TooShort
    ensures r.ServerError? <==>
      f.NonString? || (f.Text? && |Trim(f.s)| >= MinQuestionLength && svc.embed(Trim(f.s)).None?)
    ensures r.ServerError? ==> r.error == ProcessingFailed
    ensures r.Answered? ==>
      && r.answer != []
      && r.score.Finite?
      && |r.sources| == (if |svc.store| < CandidateCount then |svc.store| else CandidateCount)
      && (forall i, j :: 0 <= i < j < |r.sources| ==> r.sources[i].sim >= r.sources[j].sim)
  {
    match QuestionText(f)
    case None => ServerError(ProcessingFailed)
    case Some(question) =>
      if |question| < MinQuestionLength then BadRequest(TooShort)
      else match svc.embed(question)
        case None => ServerError(ProcessingFailed)
        case Some(emb) =>
          var cands := Candidates(svc, emb);
          var best := Arbitrate(svc.extractor, question, cands);
          Answered(best.answer, SourcesOf(cands), best.score)
  }

  /** A question rejected as too short is rejected before the embedder, the
      store or the model are used: the reply is the same whatever the
      service. */
  lemma ShortQuestionUsesNoService(svc1: Service, svc2: Service, f: QuestionField)
    requires f.Missing? || (f.Text? && |Trim(f.s)| < MinQuestionLength)
    ensures Ask(svc1, f) == Ask(svc2, f) == BadRequest(TooShort)
  {
  }

  /** The sources of an answered question are the stable top three of the
      store: source `i` is the chunk at store position `ps[i]` with its own
      similarity to the question, the positions are distinct, equal
      similarities keep store order, and every chunk left out is less
      similar than each source, or ties with it from a later position. */
  lemma AnsweredSourcesAreTopThree(svc: Service, s: string)
    requires |Trim(s)| >= MinQuestionLength && svc.embed(Trim(s)).Some?
    ensures var emb := svc.embed(Trim(s)).value;
      var ps := Picked(svc.store, emb, CandidateCount, svc.sim);
      var r := Ask(svc, Text(s));
      && r.Answered?
      && |r.sources| == |ps|
      && (forall i :: 0 <= i < |ps| ==>
            r.sources[i] == Source(svc.store[ps[i]].id, svc.sim(emb, svc.store[ps[i]].embedding)))
      && (forall i, j :: 0 <= i < j < |ps| ==> ps[i] != ps[j])
      && (forall i, j :: 0 <= i < j < |ps| && r.sources[i].sim == r.sources[j].sim ==> ps[i] < ps[j])
      && (forall x, i :: 0 <= x < |svc.store| && x !in ps && 0 <= i < |ps| ==>
            r.sources[i].sim > svc.sim(emb, svc.store[x].embedding)
            || (r.sources[i].sim == svc.sim(emb, svc.store[x].embedding) && ps[i] < x))
  {
    var emb := svc.embed(Trim(s)).value;
    TopKIsStableSelection(svc.store, emb, CandidateCount, svc.sim);
  }

  /** Without the QA model, an answered question gets the text of the most
      similar chunk (or the placeholder when the store is empty or that text
      is empty) with score 0. */
  lemma DisabledAnswersTopChunk(svc: Service, s: string)
    requires svc.extractor.Disabled?
    requires |Trim(s)| >= MinQuestionLength && svc.embed(Trim(s)).Some?
    ensures var cands := Candidates(svc, svc.embed(Trim(s)).value);
      var r := Ask(svc, Text(s));
      && r.Answered?
      && r.score == Finite(0.0)
      && r.answer == (if cands != [] && cands[0].chunk.text != [] then cands[0].chunk.text else NoAnswer)
  {
    DisabledFallsBack(Trim(s), Candidates(svc, svc.embed(Trim(s)).value));
  }

  /** An empty store still answers a valid question: the placeholder, score
      0, no sources. */
  lemma EmptyStoreAnswersPlaceholder(svc: Service, s: string)
    requires svc.store == []
    requires |Trim(s)| >= MinQuestionLength && svc.embed(Trim(s)).Some?
    ensures Ask(svc, Text(s)) == Answered(NoAnswer, [], Finite(0.0))
  {
    var cands := Candidates(svc, svc.embed(Trim(s)).value);
    assert cands == [];
    assert Select(svc.extractor, Trim(s), cands) == NoBest;
  }
}
