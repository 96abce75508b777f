/** `topK`: every stored chunk gets its similarity to the query, the list is
    sorted by descending score, and the first `k` are kept. The sort is
    `Array.prototype.sort`, which is stable, so chunks with equal scores keep
    their store order: the result order is by score, highest first, and then
    by position in the store. The similarity function is a parameter. */
module Retrieval {

  /** A record of the knowledge file: id, text and embedding. */
  datatype StoredChunk = StoredChunk(id: int, text: string, embedding: seq<real>)

  /** `{ ...c, score }`: a stored chunk with its similarity to the query. */
  datatype Scored = Scored(chunk: StoredChunk, score: real)

  /** The similarity of a query embedding to a chunk embedding. */
  type Similarity = (seq<real>, seq<real>) -> real

  /** The order the stable descending sort puts positions in: higher score
      first, earlier position first among equal scores. */
  predicate Before(scores: seq<real>, a: nat, b: nat)
    requires a < |scores| && b < |scores|
  {
    scores[a] > scores[b] || (scores[a] == scores[b] && a < b)
  }

  /** `r` lists positions of `scores` in strictly increasing `Before` order. */
  predicate RankedBy(scores: seq<real>, r: seq<nat>) {
    && (forall i :: 0 <= i < |r| ==> r[i] < |scores|)
    && (forall i, j :: 0 <= i < j < |r| ==> Before(scores, r[i], r[j]))
  }

  /** Insertion of a position later than all ranked ones: it goes after every
      position whose score is at least its own. */
  function Insert(scores: seq<real>, r: seq<nat>, x: nat): (r': seq<nat>)
    requires RankedBy(scores, r) && x < |scores|
    requires forall i :: 0 <= i < |r| ==> r[i] < x
    ensures RankedBy(scores, r') && |r'| == |r| + 1
    ensures forall y: nat :: y in r' <==> y in r || y == x
  {
    if r == [] then [x]
    else if scores[r[0]] >= scores[x] then
      var rest := Insert(scores, r[1..], x);
      assert forall y :: y in r[1..] ==> Before(scores, r[0], y);
      assert forall i :: 0 <= i < |rest| ==> rest[i] in rest;
      [r[0]] + rest
    else [x] + r
  }

  /** The stable descending order of the first `n` positions. */
  function RankPrefix(scores: seq<real>, n: nat): (r: seq<nat>)
    requires n <= |scores|
    ensures RankedBy(scores, r) && |r| == n
    ensures forall y: nat :: y in r <==> y < n
  {
    if n == 0 then []
    else
      var r := RankPrefix(scores, n - 1);
      assert forall i :: 0 <= i < |r| ==> r[i] in r;
      Insert(scores, r, n - 1)
  }

  /** The order in which the stable sort lists the positions of `scores`. */
  function StableOrder(scores: seq<real>): (r: seq<nat>)
    ensures RankedBy(scores, r) && |r| == |scores|
    ensures forall y: nat :: y in r <==> y < |scores|
  {
    RankPrefix(scores, |scores|)
  }

  /** Two non-empty rankings of the same positions start alike: each head
      comes before everything else in both. */
  lemma RankedHeadsEqual(scores: seq<real>, a: seq<nat>, b: seq<nat>)
    requires RankedBy(scores, a) && RankedBy(scores, b)
    requires a != [] && b != []
    requires forall y: nat :: y in a <==> y in b
    ensures a[0] == b[0]
  {
    assert a[0] in b && b[0] in a;
  }

  lemma SameMembersBothEmpty(a: seq<nat>, b: seq<nat>)
    requires forall y: nat :: y in a <==> y in b
    ensures a == [] <==> b == []
  {
    if a != [] {
      assert a[0] in b;
    }
    if b != [] {
      assert b[0] in a;
    }
  }

  /** Two rankings of the same positions are the same sequence. */
  lemma {:induction false} RankedSameMembersEqual(scores: seq<real>, a: seq<nat>, b: seq<nat>)
    requires RankedBy(scores, a) && RankedBy(scores, b)
    requires forall y: nat :: y in a <==> y in b
    ensures a == b
    decreases |a|
  {
    SameMembersBothEmpty(a, b);
    if a != [] {
      RankedHeadsEqual(scores, a, b);
      assert forall y: nat :: y in a[1..] <==> y in a && y != a[0];
      assert forall y: nat :: y in b[1..] <==> y in b && y != b[0];
      RankedSameMembersEqual(scores, a[1..], b[1..]);
    }
  }

  /** The sort's result is determined: any listing of all positions in
      `Before` order is the stable one. */
  lemma StableOrderIsUnique(scores: seq<real>, r: seq<nat>)
    requires RankedBy(scores, r)
    requires forall y: nat :: y < |scores| ==> y in r
    ensures r == StableOrder(scores)
  {
    RankedSameMembersEqual(scores, r, StableOrder(scores));
  }

  /** `CHUNKS.map((c) => ({ ...c, score: cosine(qEmb, c.embedding) }))`. */
  function ScoreAll(store: seq<StoredChunk>, query: seq<real>, sim: Similarity): (xs: seq<Scored>)
    ensures |xs| == |store|
    ensures forall i :: 0 <= i < |xs| ==> xs[i].chunk == store[i] && xs[i].score == sim(query, store[i].embedding)
  {
    seq(|store|, i requires 0 <= i < |store| => Scored(store[i], sim(query, store[i].embedding)))
  }

  function Scores(xs: seq<Scored>): (ss: seq<real>)
    ensures |ss| == |xs| && forall i :: 0 <= i < |xs| ==> ss[i] == xs[i].score
  {
    seq(|xs|, i requires 0 <= i < |xs| => xs[i].score)
  }

  /** The end `slice(0, k)` uses on an array of length `n`: `k` itself when it
      is within bounds, counted from the end when negative. */
  function SliceEnd(n: nat, k: int): (e: nat)
    ensures e <= n
    ensures k >= 0 ==> e == if k < n then k else n
  {
    if k >= 0 then (if k < n then k else n)
    else if n + k > 0 then n + k else 0
  }

  /** The store positions `topK` returns, in order. */
  function Picked(store: seq<StoredChunk>, query: seq<real>, k: int, sim: Similarity): (ps: seq<nat>)
    ensures |ps| == SliceEnd(|store|, k)
    ensures forall i :: 0 <= i < |ps| ==> ps[i] < |store|
  {
    StableOrder(Scores(ScoreAll(store, query, sim)))[..SliceEnd(|store|, k)]
  }

  /** `topK(qEmb, k)`. It returns `min(k, |store|)` results for `k >= 0`,
      each a stored chunk unchanged together with its own similarity, in
      non-increasing score order. */
  function TopK(store: seq<StoredChunk>, query: seq<real>, k: int, sim: Similarity): (res: seq<Scored>)
    ensures k >= 0 ==> |res| == if k < |store| then k else |store|
    ensures forall i :: 0 <= i < |res| ==> res[i].chunk in store && res[i].score == sim(query, res[i].chunk.embedding)
    ensures forall i, j :: 0 <= i < j < |res| ==> res[i].score >= res[j].score
  {
    var xs := ScoreAll(store, query, sim);
    var ps := Picked(store, query, k, sim);
    assert RankedBy(Scores(xs), ps);
    seq(|ps|, i requires 0 <= i < |ps| => xs[ps[i]])
  }

  /** `topK` is a stable top-k selection. Result `i` is the chunk at store
      position `Picked[i]`; the positions are distinct; equal scores keep
      store order; and every chunk left out scores below every chunk
      returned, or ties with it from a later position. */
  lemma TopKIsStableSelection(store: seq<StoredChunk>, query: seq<real>, k: int, sim: Similarity)
    ensures var res := TopK(store, query, k, sim);
      var ps := Picked(store, query, k, sim);
      && |ps| == |res|
      && (forall i :: 0 <= i < |res| ==> res[i].chunk == store[ps[i]])
      && (forall i, j :: 0 <= i < j < |res| ==> ps[i] != ps[j])
      && (forall i, j :: 0 <= i < j < |res| && res[i].score == res[j].score ==> ps[i] < ps[j])
      && (forall x, i :: 0 <= x < |store| && x !in ps && 0 <= i < |res| ==>
            res[i].score > sim(query, store[x].embedding)
            || (res[i].score == sim(query, store[x].embedding) && ps[i] < x))
  {
    var xs := ScoreAll(store, query, sim);
    var ss := Scores(xs);
    var order := StableOrder(ss);
    var m := SliceEnd(|store|, k);
    var ps := Picked(store, query, k, sim);
    assert ps == order[..m];
    forall x, i | 0 <= x < |store| && x !in ps && 0 <= i < m
      ensures Before(ss, ps[i], x)
    {
      assert x in order;
      var j :| 0 <= j < |order| && order[j] == x;
    }
  }

  /** When the store is numbered 1..n in order, as the knowledge builder
      writes it, equal scores come out in increasing id order. */
  lemma TopKTiesByIdOrder(store: seq<StoredChunk>, query: seq<real>, k: int, sim: Similarity)
    requires forall i :: 0 <= i < |store| ==> store[i].id == i + 1
    ensures var res := TopK(store, query, k, sim);
      forall i, j :: 0 <= i < j < |res| && res[i].score == res[j].score ==> res[i].chunk.id < res[j].chunk.id
  {
    TopKIsStableSelection(store, query, k, sim);
  }
}
