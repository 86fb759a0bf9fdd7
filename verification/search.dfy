/** The search route: request checks, loading the user's ready documents and
    their chunks, retrieval, building the prompt context, asking the chat
    model and shaping the answer with its cited sources. The database reads,
    the embedding endpoint and the chat model are parameters. */
module Search {
  import opened Outcomes
  import opened JsText
  import opened Similarity
  import opened Embedding
  import opened Retrieval

  /** A `documents` row returned for the user: only `ready` rows are asked for. */
  datatype DocRow = DocRow(id: string, fileName: string)

  /** A database read: an error reply, or the rows (a `null` data field reads
      as no rows, which the route treats the same way). */
  datatype Fetch<T> = FetchFailed | Fetched(rows: seq<T>)

  /** The chat completion call: it throws, or yields the first choice's
      message content, which may be absent. */
  datatype LlmReply = LlmFailed | LlmAnswered(content: Option<string>)

  /** The request body; an absent `query` or `userId` is the empty string. */
  datatype SearchRequest = SearchRequest(query: string, userId: string, topK: Option<int>)

  datatype Source = Source(title: string, page: int, relevance: string, snippet: string)

  datatype Response = Failure(status: int, error: string) | Answer(answer: string, sources: seq<Source>)

  const MissingFields := "Missing query or userId"
  const DocsFailed := "Failed to load documents"
  const ChunksFailed := "Failed to load chunks"
  const SearchFailed := "Search failed."
  const NoContent := "I couldn't find any indexed content for your documents yet. Try uploading a document first."
  const NoChunks := "I couldn't find any indexed chunks for your documents. Try re-uploading them."
  const NoRelevant := "I couldn't find relevant information in your uploaded documents for that question. Please ask something that clearly relates to them."
  const LlmFallback := "I couldn't find relevant information in the uploaded documents for that question."
  const UnknownDocument := "Unknown Document"

  // ---------- document names ----------

  /** `docNameById` after the loop over `docs`: a later row overwrites an
      earlier one with the same id. */
  function NameIndexOf(docs: seq<DocRow>): map<string, string>
  {
    if docs == [] then map[]
    else NameIndexOf(docs[..|docs| - 1])[docs[|docs| - 1].id := docs[|docs| - 1].fileName]
  }

  method BuildNameIndex(docs: seq<DocRow>) returns (names: map<string, string>)
    ensures names == NameIndexOf(docs)
  {
    names := map[];
    for i := 0 to |docs|
      invariant names == NameIndexOf(docs[..i])
    {
      assert docs[..i + 1][..i] == docs[..i];
      names := names[docs[i].id := docs[i].fileName];
    }
    assert docs[..|docs|] == docs;
  }

  /** The index has one entry per distinct id, holding the file name of the
      last row with that id. */
  lemma {:induction false} NameIndexLastWins(docs: seq<DocRow>)
    ensures NameIndexOf(docs).Keys == set d | d in docs :: d.id
    ensures forall j :: 0 <= j < |docs| && (forall k :: j < k < |docs| ==> docs[k].id != docs[j].id) ==>
      NameIndexOf(docs)[docs[j].id] == docs[j].fileName
    decreases |docs|
  {
    if docs != [] {
      var init := docs[..|docs| - 1];
      NameIndexLastWins(init);
      assert docs == init + [docs[|docs| - 1]];
      forall j | 0 <= j < |docs| - 1 && (forall k :: j < k < |docs| ==> docs[k].id != docs[j].id)
        ensures NameIndexOf(docs)[docs[j].id] == docs[j].fileName
      {
        assert init[j] == docs[j];
        assert forall k :: j < k < |init| ==> init[k] == docs[k];
      }
    }
  }

  /** `docNameById[id] || "Unknown Document"`: a known, non-empty file name
      is shown; an unknown id and an empty name both fall back. */
  function DisplayName(names: map<string, string>, id: string): (r: string)
    ensures r != []
    ensures id in names && names[id] != "" ==> r == names[id]
    ensures id !in names || names[id] == "" ==> r == UnknownDocument
  {
    if id in names && names[id] != "" then names[id] else UnknownDocument
  }

  /** `page_number ?? 1`: only a missing page becomes 1; a stored 0 stays 0. */
  function PageOf(page: Option<int>): int
  {
    page.GetOr(1)
  }

  function DocIds(docs: seq<DocRow>): (r: seq<string>)
    ensures |r| == |docs| && forall k :: 0 <= k < |docs| ==> r[k] == docs[k].id
  {
    seq(|docs|, k requires 0 <= k < |docs| => docs[k].id)
  }

  // ---------- context ----------

  /** One excerpt of the prompt context: its 1-based position, the document
      name, the page and the chunk text. */
  function Excerpt(i: nat, name: string, page: int, text: string): (r: string)
    ensures r != [] && r[0] == 'S'
  {
    "Source " + NatToString(i + 1) + " — " + name + ", Page " + IntToString(page) + ":\n" + text
  }

  function Excerpts(top: seq<Match>, names: map<string, string>): (r: seq<string>)
    ensures |r| == |top|
    ensures forall i :: 0 <= i < |top| ==>
      r[i] == Excerpt(i, DisplayName(names, top[i].docId), PageOf(top[i].pageNumber), top[i].text)
  {
    seq(|top|, i requires 0 <= i < |top| => Excerpt(i, DisplayName(names, top[i].docId), PageOf(top[i].pageNumber), top[i].text))
  }

  /** The excerpts joined by blank lines. */
  function Context(top: seq<Match>, names: map<string, string>): string
  {
    Join(Excerpts(top, names), "\n\n")
  }

  /** `context.trim()` is empty exactly when no match was selected: every
      excerpt begins with the visible text `Source`. */
  lemma ContextBlankIff(top: seq<Match>, names: map<string, string>)
    ensures Trim(Context(top, names)) == [] <==> top == []
  {
    TrimFacts(Context(top, names));
    if top != [] {
      var parts := Excerpts(top, names);
      JoinStartsWithFirst(parts, "\n\n");
      assert Context(top, names)[0] == parts[0][0] == 'S';
    }
  }

  /** The context lists the selected matches in rank order: excerpt `i` sits
      at its offset, after the earlier excerpts and their separators. */
  lemma ContextHoldsExcerpts(top: seq<Match>, names: map<string, string>, i: nat)
    requires i < |top|
    ensures var parts := Excerpts(top, names);
      var at := JoinOffset(parts, "\n\n", i);
      at + |parts[i]| <= |Context(top, names)| &&
      Context(top, names)[at..at + |parts[i]|] ==
        Excerpt(i, DisplayName(names, top[i].docId), PageOf(top[i].pageNumber), top[i].text)
  {
    JoinHoldsParts(Excerpts(top, names), "\n\n", i);
  }

  /** The user turn of the chat request. */
  function UserMessage(query: string, context: string): string
  {
    "User question:\n" + query + "\n\nDocument excerpts:\n" + context
  }

  // ---------- sources ----------

  const SnippetLength: nat := 160

  /** The first 160 characters with whitespace runs collapsed, and `...` when
      the text was longer. */
  function Snippet(text: string): string
  {
    CollapseWhitespace(Prefix(text, SnippetLength)) + (if |text| > SnippetLength then "..." else "")
  }

  /** A snippet is the first 160 characters with each whitespace run turned
      into one space, and an ellipsis marking a cut: it keeps every visible
      character of those 160, in order, and a text of at most 160 characters
      loses nothing visible. */
  lemma SnippetShape(text: string)
    ensures Snippet(text) == Dedupe(Blanks(Prefix(text, SnippetLength))) + (if |text| > SnippetLength then "..." else "")
    ensures |Snippet(text)| <= SnippetLength + 3
    ensures Visible(Snippet(text)) == Visible(Prefix(text, SnippetLength)) + (if |text| > SnippetLength then "..." else "")
    ensures |text| <= SnippetLength ==> Visible(Snippet(text)) == Visible(text)
    ensures |text| > SnippetLength ==> Snippet(text)[|Snippet(text)| - 3..] == "..."
    ensures forall k :: 0 <= k < |Snippet(text)| && IsSpace(Snippet(text)[k]) ==> Snippet(text)[k] == ' '
  {
    var head := Prefix(text, SnippetLength);
    var tail := if |text| > SnippetLength then "..." else "";
    assert Snippet(text) == CollapseWhitespace(head) + tail;
    CollapseIsDedupeOfBlanks(head);
    CollapsedThenMarked(head, tail);
    if |text| <= SnippetLength {
      assert head == text;
    }
  }

  /** Collapsed text followed by an optional ellipsis. */
  lemma CollapsedThenMarked(head: string, tail: string)
    requires tail == "..." || tail == ""
    ensures var r := CollapseWhitespace(head) + tail;
      && Visible(r) == Visible(head) + tail
      && (tail != [] ==> r[|r| - 3..] == "...")
      && (forall k :: 0 <= k < |r| && IsSpace(r[k]) ==> r[k] == ' ')
  {
    var body := CollapseWhitespace(head);
    CollapseKeepsVisible(head);
    VisibleAppend(body, tail);
    assert Visible(tail) == tail by {
      if tail != [] {
        assert tail[2..] == ".";
        assert Visible(tail[2..]) == ".";
        assert tail[1..] == "..";
        assert Visible(tail[1..]) == "..";
      }
    }
    CollapseSpaces(head);
    OnlySpacesKept(body, tail);
  }

  lemma OnlySpacesKept(body: string, tail: string)
    requires forall k :: 0 <= k < |body| && IsSpace(body[k]) ==> body[k] == ' '
    requires tail == "..." || tail == ""
    ensures forall k :: 0 <= k < |body + tail| && IsSpace((body + tail)[k]) ==> (body + tail)[k] == ' '
  {
    var r := body + tail;
    forall k | 0 <= k < |r| && IsSpace(r[k])
      ensures r[k] == ' '
    {
      if k < |body| {
        assert r[k] == body[k];
      } else {
        assert r[k] == tail[k - |body|] == '.';
      }
    }
  }

  /** `Math.round`: the nearest integer, halves rounded up. */
  function JsRound(x: real): (r: int)
    ensures x - 0.5 < r as real <= x + 0.5
  {
    (x + 0.5).Floor
  }

  /** The `relevance` label: the similarity as a whole percentage. */
  function Relevance(similarity: real): string
  {
    IntToString(JsRound(similarity * 100.0)) + "%"
  }

  function SourceOf(m: Match, names: map<string, string>): Source
  {
    Source(DisplayName(names, m.docId), PageOf(m.pageNumber), Relevance(m.similarity), Snippet(m.text))
  }

  function Sources(top: seq<Match>, names: map<string, string>): (r: seq<Source>)
    ensures |r| == |top| && forall i :: 0 <= i < |top| ==> r[i] == SourceOf(top[i], names)
  {
    seq(|top|, i requires 0 <= i < |top| => SourceOf(top[i], names))
  }

  // ---------- the route ----------

  /** The route as a function of the request and of what the database, the
      embedding endpoint and the chat model answer. */
  function SearchSpec(req: SearchRequest,
                      loadDocs: string -> Fetch<DocRow>,
                      loadChunks: seq<string> -> Fetch<StoredChunk>,
                      apiKey: string, service: EmbedRequest -> ServiceReply,
                      parse: string -> ParsedJson, sqrt: real -> real,
                      llm: string -> LlmReply): Response
    requires PositiveRoot(sqrt)
  {
    if req.query == "" || req.userId == "" then Failure(400, MissingFields)
    else
      var topK := req.topK.GetOr(DefaultTopK);
      match loadDocs(req.userId)
      case FetchFailed => Failure(500, DocsFailed)
      case Fetched(docs) =>
        if docs == [] then Answer(NoContent, [])
        else
          var names := NameIndexOf(docs);
          match loadChunks(DocIds(docs))
          case FetchFailed => Failure(500, ChunksFailed)
          case Fetched(chunks) =>
            if chunks == [] then Answer(NoChunks, [])
            else
              match EmbedQueryToVector(req.query, apiKey, service)
              case Err(_) => Failure(500, SearchFailed)
              case Ok(None) => Failure(500, SearchFailed)
              case Ok(Some(q)) => Rank(req.query, topK, names, Candidates(q, chunks, parse, sqrt), llm)
  }

  /** The tail of the route once the matches are scored. */
  function Rank(query: string, topK: int, names: map<string, string>, matches: seq<Match>, llm: string -> LlmReply): Response
  {
    if matches == [] then Answer(NoRelevant, [])
    else
      var top := SelectTop(SortBySimilarity(matches), topK);
      var context := Context(top, names);
      if Trim(context) == [] then Answer(NoRelevant, [])
      else
        match llm(UserMessage(query, context))
        case LlmFailed => Failure(500, SearchFailed)
        case LlmAnswered(content) => Answer(content.GetOr(LlmFallback), Sources(top, names))
  }

  /** The search route handler. */
  method HandleSearch(req: SearchRequest,
                      loadDocs: string -> Fetch<DocRow>,
                      loadChunks: seq<string> -> Fetch<StoredChunk>,
                      apiKey: string, service: EmbedRequest -> ServiceReply,
                      parse: string -> ParsedJson, sqrt: real -> real,
                      llm: string -> LlmReply) returns (resp: Response)
    requires PositiveRoot(sqrt)
    ensures resp == SearchSpec(req, loadDocs, loadChunks, apiKey, service, parse, sqrt, llm)
  {
    if req.query == "" || req.userId == "" {
      return Failure(400, MissingFields);
    }
    var topK := req.topK.GetOr(DefaultTopK);
    var docsReply := loadDocs(req.userId);
    if docsReply.FetchFailed? {
      return Failure(500, DocsFailed);
    }
    var docs := docsReply.rows;
    if |docs| == 0 {
      return Answer(NoContent, []);
    }
    var names := BuildNameIndex(docs);
    var chunksReply := loadChunks(DocIds(docs));
    if chunksReply.FetchFailed? {
      return Failure(500, ChunksFailed);
    }
    var chunks := chunksReply.rows;
    if |chunks| == 0 {
      return Answer(NoChunks, []);
    }
    var queryEmbedding := EmbedQueryToVector(req.query, apiKey, service);
    if queryEmbedding.Err? || queryEmbedding.value.None? {
      return Failure(500, SearchFailed);
    }
    var matches := ScoreCandidates(queryEmbedding.value.value, chunks, parse, sqrt);
    if |matches| == 0 {
      return Answer(NoRelevant, []);
    }
    var ranked := SortBySimilarity(matches);
    var top := SelectTop(ranked, topK);
    var context := Context(top, names);
    if Trim(context) == [] {
      return Answer(NoRelevant, []);
    }
    var reply := llm(UserMessage(req.query, context));
    if reply.LlmFailed? {
      return Failure(500, SearchFailed);
    }
    resp := Answer(reply.content.GetOr(LlmFallback), Sources(top, names));
  }

  /** A request is rejected with 400 exactly when the query or the user id
      is missing; every other failure is a 500 with one of the three fixed
      messages. */
  lemma SearchFailures(req: SearchRequest,
                       loadDocs: string -> Fetch<DocRow>, loadChunks: seq<string> -> Fetch<StoredChunk>,
                       apiKey: string, service: EmbedRequest -> ServiceReply,
                       parse: string -> ParsedJson, sqrt: real -> real, llm: string -> LlmReply)
    requires PositiveRoot(sqrt)
    ensures var r := SearchSpec(req, loadDocs, loadChunks, apiKey, service, parse, sqrt, llm);
      (r == Failure(400, MissingFields) <==> req.query == "" || req.userId == "") &&
      (r.Failure? && r.status != 400 ==> r.status == 500 && r.error in {DocsFailed, ChunksFailed, SearchFailed}) &&
      (r.Failure? ==> r.status in {400, 500})
    ensures (req.query != "" && req.userId != "" && apiKey == "" && loadDocs(req.userId).Fetched? &&
             loadDocs(req.userId).rows != [] &&
             loadChunks(DocIds(loadDocs(req.userId).rows)).Fetched? &&
             loadChunks(DocIds(loadDocs(req.userId).rows)).rows != []) ==>
        SearchSpec(req, loadDocs, loadChunks, apiKey, service, parse, sqrt, llm) == Failure(500, SearchFailed)
  {
    if req.query != "" && apiKey == "" {
      QueryVectorIsFirst(req.query, apiKey, service);
    }
    if req.query != "" && req.userId != "" {
      var topK := req.topK.GetOr(DefaultTopK);
      if loadDocs(req.userId).Fetched? && loadDocs(req.userId).rows != [] {
        var docs := loadDocs(req.userId).rows;
        if loadChunks(DocIds(docs)).Fetched? && loadChunks(DocIds(docs)).rows != [] {
          var q := EmbedQueryToVector(req.query, apiKey, service);
          if q.Ok? && q.value.Some? {
            RankAnswers(req.query, topK, NameIndexOf(docs), Candidates(q.value.value, loadChunks(DocIds(docs)).rows, parse, sqrt), llm);
          }
        }
      }
    }
  }

  /** The three fixed answers without sources, each given exactly at its
      own exit: no ready document for the user, no chunk for those
      documents, and, once the query is embedded, no usable chunk embedding
      or a `topK` that leaves no room. */
  lemma SearchNotices(req: SearchRequest,
                      loadDocs: string -> Fetch<DocRow>, loadChunks: seq<string> -> Fetch<StoredChunk>,
                      apiKey: string, service: EmbedRequest -> ServiceReply,
                      parse: string -> ParsedJson, sqrt: real -> real, llm: string -> LlmReply)
    requires PositiveRoot(sqrt)
    ensures var r := SearchSpec(req, loadDocs, loadChunks, apiKey, service, parse, sqrt, llm);
      r == Answer(NoContent, []) <==>
        req.query != "" && req.userId != "" && loadDocs(req.userId) == Fetched([])
    ensures var r := SearchSpec(req, loadDocs, loadChunks, apiKey, service, parse, sqrt, llm);
      r == Answer(NoChunks, []) <==>
        req.query != "" && req.userId != "" && loadDocs(req.userId).Fetched? && loadDocs(req.userId).rows != [] &&
        loadChunks(DocIds(loadDocs(req.userId).rows)) == Fetched([])
    ensures var r := SearchSpec(req, loadDocs, loadChunks, apiKey, service, parse, sqrt, llm);
      r == Answer(NoRelevant, []) <==>
        req.query != "" && req.userId != "" && loadDocs(req.userId).Fetched? && loadDocs(req.userId).rows != [] &&
        var chunks := loadChunks(DocIds(loadDocs(req.userId).rows));
        var q := EmbedQueryToVector(req.query, apiKey, service);
        chunks.Fetched? && chunks.rows != [] && q.Ok? && q.value.Some? &&
        var matches := Candidates(q.value.value, chunks.rows, parse, sqrt);
        (matches == [] || SliceEnd(|Pool(SortBySimilarity(matches))|, req.topK.GetOr(DefaultTopK)) == 0)
  {
    assert |NoContent| != |NoChunks| && |NoContent| != |NoRelevant| && |NoChunks| != |NoRelevant|;
    if req.query != "" && req.userId != "" && loadDocs(req.userId).Fetched? && loadDocs(req.userId).rows != [] {
      var docs := loadDocs(req.userId).rows;
      var chunks := loadChunks(DocIds(docs));
      var q := EmbedQueryToVector(req.query, apiKey, service);
      if chunks.Fetched? && chunks.rows != [] && q.Ok? && q.value.Some? {
        var matches := Candidates(q.value.value, chunks.rows, parse, sqrt);
        var topK := req.topK.GetOr(DefaultTopK);
        RankAnswers(req.query, topK, NameIndexOf(docs), matches, llm);
      }
    }
  }

  /** After scoring: the "no relevant information" answer comes back exactly
      when no chunk had a usable embedding or `topK` leaves no room; otherwise
      the chat model is asked about the selected excerpts, its failure is a
      500, and its answer comes with one source per selected match, best
      first, at most `topK` of them. */
  lemma RankAnswers(query: string, topK: int, names: map<string, string>, matches: seq<Match>, llm: string -> LlmReply)
    ensures var top := SelectTop(SortBySimilarity(matches), topK);
      var r := Rank(query, topK, names, matches, llm);
      var reply := llm(UserMessage(query, Context(top, names)));
      (r == Answer(NoRelevant, []) <==> top == []) &&
      (top == [] <==> matches == [] || SliceEnd(|Pool(SortBySimilarity(matches))|, topK) == 0) &&
      (top != [] && reply.LlmFailed? ==> r == Failure(500, SearchFailed)) &&
      (top != [] && reply.LlmAnswered? ==> r == Answer(reply.content.GetOr(LlmFallback), Sources(top, names))) &&
      (topK >= 0 ==> |Sources(top, names)| <= topK)
  {
    var ranked := SortBySimilarity(matches);
    var top := SelectTop(ranked, topK);
    SortBySimilarityCorrect(matches);
    SelectTopOfRanked(ranked, topK);
    SelectTopShape(ranked, topK);
    ContextBlankIff(top, names);
    if matches == [] {
      assert ranked == [];
    }
    if ranked == [] {
      assert |ranked| == |matches|;
    }
  }

  /** The selected matches are the best ones: the first source is the
      highest-scoring chunk overall, and when any chunk reaches the
      threshold every cited chunk does. */
  lemma RankCitesBestFirst(query: string, topK: int, names: map<string, string>, matches: seq<Match>, llm: string -> LlmReply)
    ensures var top := SelectTop(SortBySimilarity(matches), topK);
      SortedDesc(top) &&
      (top != [] ==> forall m :: m in matches ==> top[0].similarity >= m.similarity) &&
      ((exists m :: m in matches && m.similarity >= Threshold) ==> forall m :: m in top ==> m.similarity >= Threshold) &&
      (forall m :: m in top ==> m in matches)
  {
    SortBySimilarityCorrect(matches);
    CitesBestOf(SortBySimilarity(matches), matches, topK);
  }

  /** The selection from any ranking of `matches` cites the best match first,
      keeps to the threshold when it can, and cites only given matches. */
  lemma CitesBestOf(ranked: seq<Match>, matches: seq<Match>, topK: int)
    requires SortedDesc(ranked) && multiset(ranked) == multiset(matches)
    ensures var top := SelectTop(ranked, topK);
      SortedDesc(top) &&
      (top != [] ==> forall m :: m in matches ==> top[0].similarity >= m.similarity) &&
      ((exists m :: m in matches && m.similarity >= Threshold) ==> forall m :: m in top ==> m.similarity >= Threshold) &&
      (forall m :: m in top ==> m in matches)
  {
    var top := SelectTop(ranked, topK);
    SameMembers(ranked, matches);
    SelectTopOfRanked(ranked, topK);
    SelectTopShape(ranked, topK);
    AtLeastMembers(ranked, Threshold);
    if top != [] {
      forall m | m in matches
        ensures top[0].similarity >= m.similarity
      {
        var j :| 0 <= j < |ranked| && ranked[j] == m;
      }
    }
    forall m | m in top
      ensures m in matches
    {
      assert m in Pool(ranked);
    }
  }

  /** Two sequences with the same multiset hold the same members. */
  lemma SameMembers(a: seq<Match>, b: seq<Match>)
    requires multiset(a) == multiset(b)
    ensures forall m :: m in a <==> m in b
  {
    forall m
      ensures m in a <==> m in b
    {
      assert m in a <==> m in multiset(a);
      assert m in b <==> m in multiset(b);
    }
  }

}
