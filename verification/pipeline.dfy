/** The retrieval-augmented answering pipeline of graph.py: a state record
    goes through three stages, chunk -> embed -> answer. The sentence
    embedder and the chat-completion service are parameters: the embedder
    as a total function from a string to a vector of one fixed dimension,
    the completion as a function from a request to either the reply's
    content or the message of the exception it raised. */
module Pipeline {
  import opened Common
  import opened PyStr
  import opened Chunker
  import opened FlatL2

  /** Length of the fallback chunk `text[:1000]`. */
  const FallbackLength: nat := 1000
  /** Number of nearest chunks the answer stage asks the index for. */
  const TopKCount: nat := 3
  const CompletionModel: string := "gpt-4o-mini"
  const SystemInstruction: string := "Answer based only on the provided context."
  const ContextSeparator: string := "\n\n"

  datatype Message = Message(role: string, content: string)

  datatype CompletionRequest = CompletionRequest(model: string, messages: seq<Message>)

  /** `embedder.encode` applied to one string. */
  type Embedder = string -> Vector

  /** `client.chat.completions.create`: the reply's content, or the message
      of the exception raised instead. */
  type Completion = CompletionRequest -> Result<string, string>

  /** The embedder always produces vectors of one dimension. */
  ghost predicate FixedDimension(embed: Embedder)
  {
    forall s: string, t: string :: |embed(s)| == |embed(t)|
  }

  /** What the embed stage indexes: the chunks, or `[text[:1000]]` when
      chunking produced none. */
  function EmbedInput(text: string, chunks: seq<string>): seq<string>
  {
    if chunks == [] then [text[..Min(FallbackLength, |text|)]] else chunks
  }

  /** One embedding per chunk, in chunk order. */
  function EmbedAll(embed: Embedder, chunks: seq<string>): (vs: seq<Vector>)
    ensures |vs| == |chunks|
  {
    seq(|chunks|, i requires 0 <= i < |chunks| => embed(chunks[i]))
  }

  /** Python's `xs[l]` for `-len(xs) <= l < len(xs)`: a negative label
      counts from the end. */
  function PyIndex<T>(xs: seq<T>, l: int): T
    requires -|xs| <= l < |xs|
  {
    if l >= 0 then xs[l] else xs[|xs| + l]
  }

  /** Every label is a position of a list of `n` chunks or the padding `-1`. */
  predicate Labels(labels: seq<int>, n: nat)
  {
    forall r :: 0 <= r < |labels| ==> -1 <= labels[r] < n
  }

  /** `[chunks[i] for i in I[0]]`. */
  function Retrieved(chunks: seq<string>, labels: seq<int>): (hits: seq<string>)
    requires chunks != [] && Labels(labels, |chunks|)
    ensures |hits| == |labels|
  {
    seq(|labels|, r requires 0 <= r < |labels| => PyIndex(chunks, labels[r]))
  }

  /** The labels a top-3 search over the chunk vectors returns. */
  function SearchLabels(vectors: seq<Vector>, qv: Vector): seq<int>
    requires SameDim(vectors, |qv|)
  {
    Padded(TopK(Dists(vectors, qv), TopKCount), TopKCount)
  }

  /** The prompt: a fixed system instruction, then the context and the
      question in one user message. */
  function BuildRequest(ctx: string, query: string): CompletionRequest
  {
    CompletionRequest(CompletionModel, [
      Message("system", SystemInstruction),
      Message("user", "Context:\n" + ctx + "\n\nQuestion: " + query)
    ])
  }

  /** The whole pipeline on values: what `run_rag_sync(text, query)`
      leaves in `answer`, or the message of the completion's exception. */
  function RagAnswer(text: string, query: string, embed: Embedder, complete: Completion): Result<string, string>
    requires FixedDimension(embed)
  {
    var chunks := EmbedInput(text, ChunkText(text));
    var vectors := EmbedAll(embed, chunks);
    var labels := SearchLabels(vectors, embed(query));
    PaddedLabels(vectors, embed(query));
    var ctx := Join(ContextSeparator, Retrieved(chunks, labels));
    complete(BuildRequest(ctx, query))
  }

  /** The embed stage never indexes an empty list, replaces an empty list
      by exactly `[text[:1000]]`, and leaves a non-empty list alone. */
  lemma EmbedInputFacts(text: string, chunks: seq<string>)
    ensures EmbedInput(text, chunks) != []
    ensures chunks == [] ==> EmbedInput(text, chunks) == [text[..Min(FallbackLength, |text|)]]
    ensures chunks == [] ==> |EmbedInput(text, chunks)[0]| == Min(FallbackLength, |text|)
    ensures chunks == [] ==> EmbedInput(text, chunks)[0] <= text
    ensures chunks != [] ==> EmbedInput(text, chunks) == chunks
  {
  }

  /** The search returns exactly three labels, each a chunk position or
      the padding `-1`; the first `min(3, n)` are the ranked hits and the
      rest are padding. */
  lemma PaddedLabels(vectors: seq<Vector>, qv: Vector)
    requires SameDim(vectors, |qv|)
    ensures |SearchLabels(vectors, qv)| == TopKCount
    ensures Labels(SearchLabels(vectors, qv), |vectors|)
    ensures forall r :: 0 <= r < TopKCount ==>
      (r < |vectors| ==> SearchLabels(vectors, qv)[r] == TopK(Dists(vectors, qv), TopKCount)[r])
      && (r >= |vectors| ==> SearchLabels(vectors, qv)[r] == -1)
  {
    var found := TopK(Dists(vectors, qv), TopKCount);
    assert Indices(Dists(vectors, qv), found);
  }

  /** With fewer than three chunks, every padded place of the context
      holds the last chunk, as `chunks[-1]` picks it. */
  lemma PaddingPicksLast(chunks: seq<string>, vectors: seq<Vector>, qv: Vector, r: nat)
    requires chunks != [] && |vectors| == |chunks|
    requires SameDim(vectors, |qv|)
    requires |chunks| <= r < TopKCount
    ensures Labels(SearchLabels(vectors, qv), |chunks|)
    ensures Retrieved(chunks, SearchLabels(vectors, qv))[r] == chunks[|chunks| - 1]
  {
    PaddedLabels(vectors, qv);
  }

  /** A single chunk is repeated three times in the context. */
  lemma SingleChunkContext(chunk: string, vectors: seq<Vector>, qv: Vector)
    requires |vectors| == 1 && SameDim(vectors, |qv|)
    ensures Labels(SearchLabels(vectors, qv), 1)
    ensures Join(ContextSeparator, Retrieved([chunk], SearchLabels(vectors, qv)))
         == chunk + ContextSeparator + chunk + ContextSeparator + chunk
  {
    PaddedLabels(vectors, qv);
    var hits := Retrieved([chunk], SearchLabels(vectors, qv));
    var sep := ContextSeparator;
    assert hits == [chunk, chunk, chunk];
    assert hits[1..] == [chunk, chunk] && hits[1..][1..] == [chunk];
    assert Join(sep, [chunk, chunk]) == chunk + sep + chunk;
    assert Join(sep, hits) == chunk + sep + (chunk + sep + chunk);
  }

  /** With at least three chunks the three labels are distinct chunk
      positions, in rank order, and no retrieved chunk is farther from the
      query than a chunk left out. */
  lemma RetrievedRanked(vectors: seq<Vector>, qv: Vector)
    requires |vectors| >= TopKCount && SameDim(vectors, |qv|)
    ensures var labels := SearchLabels(vectors, qv);
      && |labels| == TopKCount
      && (forall r :: 0 <= r < TopKCount ==> 0 <= labels[r] < |vectors|)
      && labels[0] != labels[1] && labels[1] != labels[2] && labels[0] != labels[2]
      && SqDist(vectors[labels[0]], qv) <= SqDist(vectors[labels[1]], qv) <= SqDist(vectors[labels[2]], qv)
      && (forall r, e :: 0 <= r < TopKCount && 0 <= e < |vectors| && e !in labels ==>
            SqDist(vectors[labels[r]], qv) <= SqDist(vectors[e], qv))
  {
    var ds := Dists(vectors, qv);
    var found := TopK(ds, TopKCount);
    var labels := SearchLabels(vectors, qv);
    TopKIsTopK(ds, TopKCount);
    FullLabels(vectors, qv);
    assert Before(ds, found[0], found[1]) && Before(ds, found[1], found[2]) && Before(ds, found[0], found[2]);
    forall r, e | 0 <= r < TopKCount && 0 <= e < |vectors| && e !in labels
      ensures SqDist(vectors[labels[r]], qv) <= SqDist(vectors[e], qv)
    {
      assert Before(ds, found[r], e);
    }
  }

  /** With at least three vectors no label is padding: the labels are the
      top three, and a label missing from them is missing from the top three. */
  lemma FullLabels(vectors: seq<Vector>, qv: Vector)
    requires |vectors| >= TopKCount && SameDim(vectors, |qv|)
    ensures var labels, found := SearchLabels(vectors, qv), TopK(Dists(vectors, qv), TopKCount);
      && |labels| == |found| == TopKCount
      && (forall r :: 0 <= r < TopKCount ==> labels[r] == found[r])
      && (forall e :: 0 <= e < |vectors| && e !in labels ==> e !in found)
  {
    TopKIsTopK(Dists(vectors, qv), TopKCount);
    PaddedLabels(vectors, qv);
  }

  /** The prompt carries the fixed instruction and a user message that
      starts with the context and ends with the question. */
  lemma PromptCarries(ctx: string, query: string)
    ensures var req := BuildRequest(ctx, query);
      && req.model == "gpt-4o-mini"
      && |req.messages| == 2
      && req.messages[0] == Message("system", "Answer based only on the provided context.")
      && req.messages[1].role == "user"
      && var u := req.messages[1].content;
         |u| == 9 + |ctx| + 12 + |query|
         && u[..9] == "Context:\n" && u[9..9 + |ctx|] == ctx
         && u[9 + |ctx|..9 + |ctx| + 12] == "\n\nQuestion: " && u[9 + |ctx| + 12..] == query
  {
    var head, sep := "Context:\n", "\n\nQuestion: ";
    assert |head| == 9 && |sep| == 12;
    var u := head + ctx + sep + query;
    assert BuildRequest(ctx, query).messages[1].content == u;
    assert u[..9] == head;
    assert u[9..9 + |ctx|] == ctx;
    assert u[9 + |ctx|..9 + |ctx| + 12] == sep;
    assert u[9 + |ctx| + 12..] == query;
  }

  /** The stages of the graph, in the order its edges fix. */
  datatype Stage = Start | Chunked | Embedded | Answered

  /** The `State` record the graph threads through its nodes. */
  class RagState {
    var text: string
    var query: string
    var chunks: seq<string>
    var vectors: seq<Vector>
    var vectordb: FlatIndex?
    var answer: Option<string>
    ghost var stage: Stage

    /** Once embedded, the index holds exactly the chunk vectors. */
    ghost predicate Valid()
      reads this, vectordb
    {
      (stage == Embedded || stage == Answered) ==>
        && chunks != []
        && |vectors| == |chunks|
        && vectordb != null
        && vectordb.Valid()
        && vectordb.vectors == vectors
    }

    /** `{"text": text, "query": query}`. */
    constructor(text: string, query: string)
      ensures this.text == text && this.query == query
      ensures chunks == [] && vectors == [] && vectordb == null && answer == None
      ensures stage == Start && Valid()
    {
      this.text := text;
      this.query := query;
      chunks := [];
      vectors := [];
      vectordb := null;
      answer := None;
      stage := Start;
    }

    /** `chunk_node`: the chunks of the text, default window size. */
    method ChunkNode()
      requires stage == Start
      modifies this
      ensures text == old(text) && query == old(query) && answer == old(answer)
      ensures vectors == old(vectors) && vectordb == old(vectordb)
      ensures chunks == ChunkText(text)
      ensures stage == Chunked
    {
      chunks := ChunkText(text);
      stage := Chunked;
    }

    /** `embed_node`: the fallback chunk, one vector per chunk, and a fresh
        index of the vectors' dimension holding them in chunk order. */
    method EmbedNode(embed: Embedder)
      requires stage == Chunked && FixedDimension(embed)
      modifies this
      ensures chunks == EmbedInput(text, old(chunks))
      ensures vectors == EmbedAll(embed, chunks)
      ensures vectordb != null && fresh(vectordb)
      ensures vectordb.vectors == vectors
      ensures stage == Embedded && Valid()
      ensures text == old(text) && query == old(query) && answer == old(answer)
    {
      if chunks == [] {
        chunks := [text[..Min(FallbackLength, |text|)]];
      }
      var vs := EmbedAll(embed, chunks);
      var dim := |vs[0]|;
      var index := new FlatIndex(dim);
      index.Add(vs);
      vectors := vs;
      vectordb := index;
      stage := Embedded;
    }

    /** `answer_node`: searches the three nearest chunks, joins them in rank
        order and asks the completion. On success the reply becomes the
        answer; on failure the exception's message is returned and the
        answer stays unset. */
    method AnswerNode(embed: Embedder, complete: Completion) returns (error: Option<string>)
      requires stage == Embedded && Valid() && FixedDimension(embed)
      requires vectors == EmbedAll(embed, chunks)
      modifies this
      ensures text == old(text) && query == old(query) && chunks == old(chunks)
      ensures vectors == old(vectors) && vectordb == old(vectordb)
      ensures SameDim(vectors, |embed(query)|)
      ensures Labels(SearchLabels(vectors, embed(query)), |chunks|)
      ensures var ctx := Join(ContextSeparator, Retrieved(chunks, SearchLabels(vectors, embed(query))));
        match complete(BuildRequest(ctx, query))
        case Success(content) => answer == Some(content) && error == None
        case Failure(e) => answer == old(answer) && error == Some(e)
      ensures stage == Answered && Valid()
    {
      var qv := embed(query);
      assert |qv| == |embed(chunks[0])| == |vectors[0]| == vectordb.dim;
      var labels, _ := vectordb.Search(qv, TopKCount);
      PaddedLabels(vectors, qv);
      var ctx := Join(ContextSeparator, Retrieved(chunks, labels));
      var response := complete(BuildRequest(ctx, query));
      match response {
        case Success(content) =>
          answer := Some(content);
          error := None;
        case Failure(e) =>
          error := Some(e);
      }
      stage := Answered;
    }
  }

  /** `run_rag_sync(text, query)`: runs the three stages in graph order on
      a fresh state; the outcome is the answer or the exception's message. */
  method RunRagSync(text: string, query: string, embed: Embedder, complete: Completion)
    returns (state: RagState, outcome: Result<string, string>)
    requires FixedDimension(embed)
    ensures fresh(state)
    ensures state.text == text && state.query == query && state.stage == Answered
    ensures outcome == RagAnswer(text, query, embed, complete)
    ensures outcome.Success? ==> state.answer == Some(outcome.value)
    ensures outcome.Failure? ==> state.answer == None
  {
    state := new RagState(text, query);
    state.ChunkNode();
    state.EmbedNode(embed);
    var error := state.AnswerNode(embed, complete);
    match error {
      case None => outcome := Success(state.answer.value);
      case Some(e) => outcome := Failure(e);
    }
  }
}
