/** Scoring and selecting stored chunks for a query in the search route:
    decode each stored embedding, score the chunks that have one, rank them
    by similarity, keep those at or above the relevance threshold (or all of
    them when none is) and cut the list to the requested size. */
module Retrieval {
  import opened Outcomes
  import opened Similarity

  /** A stored `embedding` column value as JavaScript sees it. `RawNull` is
      any falsy value (`null`, `undefined`, `0`, `false`); `RawOther` is any
      other value that is neither an array nor a string. */
  datatype RawEmbedding =
    | RawNull
    | RawArray(items: seq<real>)
    | RawText(text: string)
    | RawOther

  /** What `JSON.parse` makes of a string: an array of numbers, some other
      value, or a thrown syntax error. */
  datatype ParsedJson = ParsedArray(items: seq<real>) | ParsedOther | ParseError

  /** `toEmbeddingArray`: arrays are taken as they are, non-empty strings are
      parsed as JSON and kept when they hold an array; everything else, a
      parse error included, gives `null`. */
  function ToEmbeddingArray(raw: RawEmbedding, parse: string -> ParsedJson): Option<Vector>
  {
    match raw
    case RawNull => None
    case RawArray(items) => Some(items)
    case RawText(text) =>
      if text == "" then None
      else if parse(text).ParsedArray? then Some(parse(text).items)
      else None
    case RawOther => None
  }

  /** A vector is recovered exactly from an array, or from a non-empty string
      the parser reads as an array, and it is then that array unchanged. */
  lemma ToEmbeddingArrayAccepts(raw: RawEmbedding, parse: string -> ParsedJson, v: Vector)
    ensures ToEmbeddingArray(raw, parse) == Some(v) <==>
      raw == RawArray(v) || (raw.RawText? && raw.text != "" && parse(raw.text) == ParsedArray(v))
    ensures ToEmbeddingArray(raw, parse).Some? ==> raw.RawArray? || raw.RawText?
  {
  }

  /** A `document_chunks` row as loaded by the search route. */
  datatype StoredChunk = StoredChunk(docId: string, pageNumber: Option<int>, chunkIndex: Option<int>, text: string, embedding: RawEmbedding)

  datatype Match = Match(docId: string, pageNumber: Option<int>, chunkIndex: Option<int>, text: string, similarity: real)

  /** The match one chunk yields: none when its embedding is missing,
      undecodable or empty. */
  function MatchOf(query: Vector, c: StoredChunk, parse: string -> ParsedJson, sqrt: real -> real): Option<Match>
    requires PositiveRoot(sqrt)
  {
    match ToEmbeddingArray(c.embedding, parse)
    case None => None
    case Some(emb) =>
      if emb == [] then None
      else Some(Match(c.docId, c.pageNumber, c.chunkIndex, c.text, Cosine(query, emb, sqrt)))
  }

  function OptionToSeq(o: Option<Match>): seq<Match>
  {
    match o
    case None => []
    case Some(m) => [m]
  }

  /** The matches of `chunks`, in chunk order. */
  function Candidates(query: Vector, chunks: seq<StoredChunk>, parse: string -> ParsedJson, sqrt: real -> real): seq<Match>
    requires PositiveRoot(sqrt)
  {
    if chunks == [] then []
    else Candidates(query, chunks[..|chunks| - 1], parse, sqrt) + OptionToSeq(MatchOf(query, chunks[|chunks| - 1], parse, sqrt))
  }

  /** Scoring keeps the chunk order: the candidates of a concatenation are
      those of the first part followed by those of the second. */
  lemma {:induction false} CandidatesAppend(query: Vector, a: seq<StoredChunk>, b: seq<StoredChunk>,
                                            parse: string -> ParsedJson, sqrt: real -> real)
    requires PositiveRoot(sqrt)
    ensures Candidates(query, a + b, parse, sqrt) == Candidates(query, a, parse, sqrt) + Candidates(query, b, parse, sqrt)
    decreases |b|
  {
    if b == [] {
      assert a + b == a;
    } else {
      var init := b[..|b| - 1];
      var last := OptionToSeq(MatchOf(query, b[|b| - 1], parse, sqrt));
      assert (a + b)[..|a + b| - 1] == a + init && (a + b)[|a + b| - 1] == b[|b| - 1];
      CandidatesAppend(query, a, init, parse, sqrt);
      AppendAssoc(Candidates(query, a, parse, sqrt), Candidates(query, init, parse, sqrt), last);
    }
  }

  /** The scoring loop: chunks without a usable embedding are skipped, every
      other chunk gives one match scored against the query. */
  method ScoreCandidates(query: Vector, chunks: seq<StoredChunk>, parse: string -> ParsedJson, sqrt: real -> real)
    returns (matches: seq<Match>)
    requires PositiveRoot(sqrt)
    ensures matches == Candidates(query, chunks, parse, sqrt)
  {
    matches := [];
    for i := 0 to |chunks|
      invariant matches == Candidates(query, chunks[..i], parse, sqrt)
    {
      var c := chunks[i];
      assert chunks[..i + 1][..i] == chunks[..i];
      var emb := ToEmbeddingArray(c.embedding, parse);
      if emb.None? || |emb.value| == 0 {
        continue;
      }
      var sim := CosineSimilarity(query, emb.value, sqrt);
      matches := matches + [Match(c.docId, c.pageNumber, c.chunkIndex, c.text, sim)];
    }
    assert chunks[..|chunks|] == chunks;
  }

  /** Every match comes from a chunk with a usable embedding, and every such
      chunk gives its match: skipping drops exactly the unusable chunks. */
  lemma CandidatesAreTheUsableChunks(query: Vector, chunks: seq<StoredChunk>, parse: string -> ParsedJson, sqrt: real -> real)
    requires PositiveRoot(sqrt)
    ensures |Candidates(query, chunks, parse, sqrt)| <= |chunks|
    ensures forall m :: m in Candidates(query, chunks, parse, sqrt) <==>
      exists j :: 0 <= j < |chunks| && MatchOf(query, chunks[j], parse, sqrt) == Some(m)
  {
    CandidatesSound(query, chunks, parse, sqrt);
    CandidatesComplete(query, chunks, parse, sqrt);
  }

  lemma {:induction false} CandidatesSound(query: Vector, chunks: seq<StoredChunk>, parse: string -> ParsedJson, sqrt: real -> real)
    requires PositiveRoot(sqrt)
    ensures |Candidates(query, chunks, parse, sqrt)| <= |chunks|
    ensures forall m :: m in Candidates(query, chunks, parse, sqrt) ==>
      exists j :: 0 <= j < |chunks| && MatchOf(query, chunks[j], parse, sqrt) == Some(m)
    decreases |chunks|
  {
    if chunks != [] {
      var init := chunks[..|chunks| - 1];
      var last := |chunks| - 1;
      CandidatesSound(query, init, parse, sqrt);
      forall m | m in Candidates(query, chunks, parse, sqrt)
        ensures exists j :: 0 <= j < |chunks| && MatchOf(query, chunks[j], parse, sqrt) == Some(m)
      {
        if m in Candidates(query, init, parse, sqrt) {
          var j :| 0 <= j < |init| && MatchOf(query, init[j], parse, sqrt) == Some(m);
          assert chunks[j] == init[j];
        } else {
          assert MatchOf(query, chunks[last], parse, sqrt) == Some(m);
        }
      }
    }
  }

  lemma {:induction false} CandidatesComplete(query: Vector, chunks: seq<StoredChunk>, parse: string -> ParsedJson, sqrt: real -> real)
    requires PositiveRoot(sqrt)
    ensures forall j, m :: 0 <= j < |chunks| && MatchOf(query, chunks[j], parse, sqrt) == Some(m) ==>
      m in Candidates(query, chunks, parse, sqrt)
    decreases |chunks|
  {
    if chunks != [] {
      var init := chunks[..|chunks| - 1];
      CandidatesComplete(query, init, parse, sqrt);
      forall j, m | 0 <= j < |chunks| && MatchOf(query, chunks[j], parse, sqrt) == Some(m)
        ensures m in Candidates(query, chunks, parse, sqrt)
      {
        if j < |init| {
          assert init[j] == chunks[j];
        }
      }
    }
  }


  /** A match records its chunk's document, page, index and text, and the
      cosine similarity of the query with the chunk's decoded embedding. */
  lemma MatchOfRecordsChunk(query: Vector, c: StoredChunk, parse: string -> ParsedJson, sqrt: real -> real)
    requires PositiveRoot(sqrt)
    ensures MatchOf(query, c, parse, sqrt).Some? <==>
      ToEmbeddingArray(c.embedding, parse).Some? && ToEmbeddingArray(c.embedding, parse).value != []
    ensures MatchOf(query, c, parse, sqrt).Some? ==>
      var m := MatchOf(query, c, parse, sqrt).value;
      m.docId == c.docId && m.pageNumber == c.pageNumber && m.chunkIndex == c.chunkIndex && m.text == c.text &&
      m.similarity == Cosine(query, ToEmbeddingArray(c.embedding, parse).value, sqrt)
  {
  }

  // ---------- ranking ----------

  ghost predicate SortedDesc(ms: seq<Match>)
  {
    forall i, j :: 0 <= i < j < |ms| ==> ms[i].similarity >= ms[j].similarity
  }

  /** Places `m` before the first element that does not score higher. */
  function Insert(m: Match, sorted: seq<Match>): (r: seq<Match>)
    ensures |r| == |sorted| + 1
    ensures multiset(r) == multiset(sorted) + multiset{m}
  {
    if sorted == [] || sorted[0].similarity <= m.similarity then [m] + sorted
    else
      assert sorted == [sorted[0]] + sorted[1..];
      [sorted[0]] + Insert(m, sorted[1..])
  }

  /** `matches.sort((a, b) => b.similarity - a.similarity)`: a stable sort,
      highest similarity first. */
  function SortBySimilarity(ms: seq<Match>): (r: seq<Match>)
    ensures |r| == |ms|
  {
    if ms == [] then [] else Insert(ms[0], SortBySimilarity(ms[1..]))
  }

  lemma {:induction false} InsertSorted(m: Match, sorted: seq<Match>)
    requires SortedDesc(sorted)
    ensures SortedDesc(Insert(m, sorted))
    ensures Insert(m, sorted) != [] && (Insert(m, sorted)[0] == m || Insert(m, sorted)[0] == sorted[0])
    decreases |sorted|
  {
    if sorted == [] || sorted[0].similarity <= m.similarity {
    } else {
      InsertSorted(m, sorted[1..]);
    }
  }

  /** The ranking is ordered and holds exactly the matches it was given. */
  lemma {:induction false} SortBySimilarityCorrect(ms: seq<Match>)
    ensures SortedDesc(SortBySimilarity(ms))
    ensures multiset(SortBySimilarity(ms)) == multiset(ms)
    decreases |ms|
  {
    if ms != [] {
      var tail := SortBySimilarity(ms[1..]);
      assert SortBySimilarity(ms) == Insert(ms[0], tail);
      SortBySimilarityCorrect(ms[1..]);
      InsertSorted(ms[0], tail);
      assert multiset(ms) == multiset(ms[1..]) + multiset{ms[0]} by {
        assert ms == [ms[0]] + ms[1..];
      }
    }
  }

  /** The matches whose similarity is exactly `v`, in order. */
  function WithScore(ms: seq<Match>, v: real): seq<Match>
  {
    if ms == [] then []
    else Tie(ms[0], v) + WithScore(ms[1..], v)
  }

  /** The tie of `x` with score `v`: `[x]` when it scores `v`, else nothing. */
  function Tie(x: Match, v: real): seq<Match>
  {
    if x.similarity == v then [x] else []
  }

  lemma WithScoreCons(x: Match, rest: seq<Match>, v: real)
    ensures WithScore([x] + rest, v) == Tie(x, v) + WithScore(rest, v)
  {
    assert ([x] + rest)[1..] == rest;
  }

  lemma {:induction false} InsertStable(m: Match, sorted: seq<Match>, v: real)
    ensures WithScore(Insert(m, sorted), v) == WithScore([m] + sorted, v)
    decreases |sorted|
  {
    if sorted != [] && sorted[0].similarity > m.similarity {
      var s0, tail := sorted[0], sorted[1..];
      var rest := Insert(m, tail);
      assert Insert(m, sorted) == [s0] + rest;
      assert sorted == [s0] + tail;
      InsertStable(m, tail, v);
      WithScoreCons(s0, rest, v);
      WithScoreCons(m, tail, v);
      WithScoreCons(m, sorted, v);
      WithScoreCons(s0, tail, v);
      // `m` scores lower than `s0`, so at most one of them ties with `v`.
      assert Tie(s0, v) + Tie(m, v) == Tie(m, v) + Tie(s0, v);
      AppendAssoc(Tie(s0, v), Tie(m, v), WithScore(tail, v));
      AppendAssoc(Tie(m, v), Tie(s0, v), WithScore(tail, v));
    }
  }

  /** Stability: matches with equal similarity keep their relative order. */
  lemma {:induction false} SortIsStable(ms: seq<Match>, v: real)
    ensures WithScore(SortBySimilarity(ms), v) == WithScore(ms, v)
    decreases |ms|
  {
    if ms != [] {
      SortIsStable(ms[1..], v);
      InsertStable(ms[0], SortBySimilarity(ms[1..]), v);
      assert ([ms[0]] + SortBySimilarity(ms[1..]))[1..] == SortBySimilarity(ms[1..]);
    }
  }

  // ---------- selection ----------

  /** Matches scoring below this are dropped when at least one does not. */
  const Threshold: real := 0.05
  /** `topK` when the request does not give one. */
  const DefaultTopK: int := 5

  /** `matches.filter((m) => m.similarity >= THRESHOLD)`. */
  function AtLeast(ms: seq<Match>, t: real): (r: seq<Match>)
    ensures |r| <= |ms|
  {
    if ms == [] then []
    else (if ms[0].similarity >= t then [ms[0]] else []) + AtLeast(ms[1..], t)
  }

  /** The end index `slice(0, end)` uses: a negative end counts back from the
      length, and both are clamped to `0 .. len`. */
  function SliceEnd(len: nat, end: int): (r: nat)
    ensures r <= len
    ensures end >= 0 ==> r == Min(end, len)
    ensures end < 0 ==> r == Max(len + end, 0)
  {
    if end < 0 then (if len + end < 0 then 0 else len + end)
    else if end < len then end else len
  }

  /** The candidate pool and its cut: above-threshold matches when there are
      any, all matches otherwise, then `slice(0, topK)`. */
  function Pool(ranked: seq<Match>): seq<Match>
  {
    var filtered := AtLeast(ranked, Threshold);
    if |filtered| > 0 then filtered else ranked
  }

  function SelectTop(ranked: seq<Match>, topK: int): (r: seq<Match>)
  {
    Pool(ranked)[..SliceEnd(|Pool(ranked)|, topK)]
  }

  lemma {:induction false} AtLeastMembers(ms: seq<Match>, t: real)
    ensures forall m :: m in AtLeast(ms, t) <==> m in ms && m.similarity >= t
    decreases |ms|
  {
    if ms != [] {
      AtLeastMembers(ms[1..], t);
      assert ms == [ms[0]] + ms[1..];
    }
  }

  /** The filter keeps every copy of a match that reaches `t` and no copy of
      one that does not. */
  lemma {:induction false} AtLeastCounts(ms: seq<Match>, t: real)
    ensures forall m :: multiset(AtLeast(ms, t))[m] == if m.similarity >= t then multiset(ms)[m] else 0
    decreases |ms|
  {
    if ms != [] {
      AtLeastCounts(ms[1..], t);
      assert ms == [ms[0]] + ms[1..];
      assert multiset(ms) == multiset([ms[0]]) + multiset(ms[1..]);
    }
  }

  /** The filter keeps the order of the matches: filtering a concatenation
      filters each part. */
  lemma {:induction false} AtLeastAppend(a: seq<Match>, b: seq<Match>, t: real)
    ensures AtLeast(a + b, t) == AtLeast(a, t) + AtLeast(b, t)
    decreases |a|
  {
    if a == [] {
      assert a + b == b;
    } else {
      assert (a + b)[0] == a[0] && (a + b)[1..] == a[1..] + b;
      AtLeastAppend(a[1..], b, t);
      AppendAssoc(if a[0].similarity >= t then [a[0]] else [], AtLeast(a[1..], t), AtLeast(b, t));
    }
  }

  lemma {:induction false} AtLeastNone(ms: seq<Match>, t: real)
    requires forall m :: m in ms ==> m.similarity < t
    ensures AtLeast(ms, t) == []
    decreases |ms|
  {
    if ms != [] {
      AtLeastNone(ms[1..], t);
    }
  }

  lemma {:induction false} AtLeastOfSorted(ms: seq<Match>, t: real)
    requires SortedDesc(ms)
    ensures AtLeast(ms, t) == ms[..|AtLeast(ms, t)|]
    decreases |ms|
  {
    if ms != [] {
      AtLeastOfSorted(ms[1..], t);
      if ms[0].similarity < t {
        AtLeastMembers(ms[1..], t);
      }
    }
  }

  /** What the selection keeps: a prefix of the pool, of length `topK` (or
      the whole pool when shorter) for a non-negative `topK` and shortened by
      `-topK` otherwise; every kept match reaches the threshold when any
      ranked match does, and the cut is the plain top of the ranking when
      none does. */
  lemma SelectTopShape(ranked: seq<Match>, topK: int)
    ensures var r := SelectTop(ranked, topK);
      r <= Pool(ranked) &&
      (topK >= 0 ==> |r| == Min(topK, |Pool(ranked)|)) &&
      (topK < 0 ==> |r| == Max(|Pool(ranked)| + topK, 0))
    ensures (exists m :: m in ranked && m.similarity >= Threshold) ==>
      forall m :: m in SelectTop(ranked, topK) ==> m.similarity >= Threshold
    ensures (forall m :: m in ranked ==> m.similarity < Threshold) ==>
      SelectTop(ranked, topK) == ranked[..SliceEnd(|ranked|, topK)]
  {
    AtLeastMembers(ranked, Threshold);
    if exists m :: m in ranked && m.similarity >= Threshold {
      var m :| m in ranked && m.similarity >= Threshold;
      assert m in AtLeast(ranked, Threshold);
      forall x | x in SelectTop(ranked, topK)
        ensures x.similarity >= Threshold
      {
        assert x in Pool(ranked);
      }
    }
    if forall m :: m in ranked ==> m.similarity < Threshold {
      AtLeastNone(ranked, Threshold);
    }
  }

  /** On a ranked list the selection is ordered, starts with the overall best
      match, and is empty only when there is nothing to choose from or
      `topK` leaves no room. */
  lemma SelectTopOfRanked(ranked: seq<Match>, topK: int)
    requires SortedDesc(ranked)
    ensures SortedDesc(SelectTop(ranked, topK))
    ensures SelectTop(ranked, topK) != [] ==> SelectTop(ranked, topK)[0] == ranked[0]
    ensures SelectTop(ranked, topK) == [] <==> ranked == [] || SliceEnd(|Pool(ranked)|, topK) == 0
    ensures ranked != [] && topK >= 1 ==> SelectTop(ranked, topK) != []
  {
    AtLeastOfSorted(ranked, Threshold);
    AtLeastMembers(ranked, Threshold);
    var filtered := AtLeast(ranked, Threshold);
    if |filtered| > 0 {
      assert filtered[0] == ranked[0];
    }
  }
}
