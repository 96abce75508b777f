/** The offline build of the knowledge file: the extracted document text is
    trimmed, cut into chunks with a 1200-character target, and every chunk is
    embedded in turn. An embedding call that throws aborts the build, so no
    file is written. */
module KnowledgeBuild {
  import opened Wrappers
  import opened JsText
  import opened Chunker
  import opened Retrieval

  /** Chunk embedding: `None` when the embedder throws. */
  type ChunkEmbedder = string -> Option<seq<real>>

  /** The loop that attaches an embedding to each chunk, in order; it stops
      at the first failure. */
  function EmbedAll(chunks: seq<Chunk>, embed: ChunkEmbedder): (r: Option<seq<StoredChunk>>)
    ensures r.Some? <==> forall i :: 0 <= i < |chunks| ==> embed(chunks[i].text).Some?
    ensures r.Some? ==> |r.value| == |chunks|
    ensures r.Some? ==> forall i :: 0 <= i < |chunks| ==>
      r.value[i] == StoredChunk(chunks[i].id, chunks[i].text, embed(chunks[i].text).value)
  {
    if chunks == [] then Some([])
    else match embed(chunks[0].text)
      case None => None
      case Some(e) =>
        match EmbedAll(chunks[1..], embed)
        case None => None
        case Some(rest) => Some([StoredChunk(chunks[0].id, chunks[0].text, e)] + rest)
  }

  /** The knowledge file `main` writes for an extracted text, or `None` when
      an embedding fails. Its records are numbered 1..n, their texts are
      non-empty, trimmed and free of carriage returns, and each carries the
      embedding of its own text. */
  function BuildStore(raw: string, embed: ChunkEmbedder): (r: Option<seq<StoredChunk>>)
    ensures r.Some? ==> forall i :: 0 <= i < |r.value| ==>
      && r.value[i].id == i + 1
      && r.value[i].text != [] && IsTrimmed(r.value[i].text) && NoCR(r.value[i].text)
      && embed(r.value[i].text) == Some(r.value[i].embedding)
    ensures Blank(raw) ==> r == Some([])
  {
    var text := Trim(raw);
    ChunkTextAgreesOnTrimmed(text, MaxLen);
    EmbedAll(ChunkTextFixed(text, MaxLen), embed)
  }

  /** The build uses the chunker as written: on the trimmed text it agrees
      with the corrected one. */
  lemma BuildStoreUsesChunkText(raw: string, embed: ChunkEmbedder)
    ensures BuildStore(raw, embed) == EmbedAll(ChunkText(Trim(raw), MaxLen), embed)
  {
    ChunkTextAgreesOnTrimmed(Trim(raw), MaxLen);
  }
}
