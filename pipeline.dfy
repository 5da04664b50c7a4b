/**
 * The query side of rag.py: mapping search hits back to chunks
 * (`retrieve_documents`), building the prompt and reading the reply
 * (`generate_response_with_ollama`), and the whole `rag_system` run with its
 * choice between rebuilding and reusing the stored index.
 *
 * The embedding model, the vector search and the language model are oracles
 * passed in as functions: the search maps the texts an index was built from,
 * a query and a count to a list of positions, and the generator maps a prompt
 * and its options to a reply.
 */
module Pipeline {
  import opened Wrappers
  import opened Text
  import opened Chunker

  /** A position Python accepts on a list of `n` elements: `-n <= i < n`. */
  predicate ValidPosition(i: int, n: nat) {
    -(n as int) <= i < n
  }

  /** Python list indexing `xs[i]`: negative positions count from the end; anything else raises. */
  function PyIndex(i: int, n: nat): (r: Option<nat>)
    ensures r.Some? ==> r.value < n
  {
    if 0 <= i < n then Some(i)
    else if ValidPosition(i, n) then Some(n + i)
    else None
  }

  /** A position is usable on a list of `n` elements exactly when it lies in `[-n, n)`. */
  lemma PyIndexSpec(i: int, n: nat)
    ensures PyIndex(i, n).Some? <==> ValidPosition(i, n)
    ensures PyIndex(i, n).Some? ==> PyIndex(i, n).value % n == i % n
  {
    if ValidPosition(i, n) && i < 0 {
      ModShift(i, n);
    }
  }

  /** A negative position `i` in `[-n, 0)` and `n + i` leave the same remainder modulo `n`. */
  lemma ModShift(i: int, n: nat)
    requires -(n as int) <= i < 0
    ensures (n + i) % n == i % n
  {
    assert i / n == -1;
    assert (n + i) % n == n + i;
  }

  datatype RetrieveError = IndexOutOfRange(position: int)

  /** `[documents[idx] for idx in indices[0]]`: the first position out of range raises. */
  function Retrieve(positions: seq<int>, documents: seq<string>): Result<seq<string>, RetrieveError>
    decreases |positions|
  {
    if positions == [] then Success([])
    else
      match PyIndex(positions[0], |documents|)
      case None => Failure(IndexOutOfRange(positions[0]))
      case Some(i) =>
        match Retrieve(positions[1..], documents)
        case Failure(e) => Failure(e)
        case Success(rest) => Success([documents[i]] + rest)
  }

  predicate InRange(positions: seq<int>, n: nat) {
    forall j :: 0 <= j < |positions| ==> ValidPosition(positions[j], n)
  }

  /**
   * Retrieval succeeds exactly when every position is in range, and then the
   * `i`-th result is the chunk at the `i`-th position, in the order the
   * search returned; otherwise the error names the first bad position.
   */
  lemma {:induction false} RetrieveSpec(positions: seq<int>, documents: seq<string>)
    ensures var r := Retrieve(positions, documents);
      && (r.Success? <==> InRange(positions, |documents|))
      && (r.Success? ==>
            && |r.value| == |positions|
            && forall j :: 0 <= j < |positions| ==> r.value[j] == documents[PyIndex(positions[j], |documents|).value])
      && (r.Failure? ==>
            exists j :: 0 <= j < |positions| && positions[j] == r.error.position
              && !ValidPosition(positions[j], |documents|) && InRange(positions[..j], |documents|))
    decreases |positions|
  {
    if positions != [] {
      var n := |documents|;
      var tail := positions[1..];
      RetrieveSpec(tail, documents);
      PyIndexSpec(positions[0], n);
      assert InRange(positions, n) <==> (ValidPosition(positions[0], n) && InRange(tail, n)) by {
        if ValidPosition(positions[0], n) && InRange(tail, n) {
          forall j | 0 <= j < |positions|
            ensures ValidPosition(positions[j], n)
          {
            if j > 0 {
              assert positions[j] == tail[j - 1];
            }
          }
        }
      }
      var r := Retrieve(positions, documents);
      if r.Failure? && PyIndex(positions[0], n).Some? {
        var j :| 0 <= j < |tail| && tail[j] == r.error.position
          && !ValidPosition(tail[j], n) && InRange(tail[..j], n);
        assert positions[j + 1] == tail[j];
        var pre := positions[..j + 1];
        forall m | 0 <= m < |pre|
          ensures ValidPosition(pre[m], n)
        {
          if m > 0 {
            assert pre[m] == tail[..j][m - 1];
          }
        }
      }
      if r.Failure? && PyIndex(positions[0], n).None? {
        assert InRange(positions[..0], n);
      }
    }
  }

  /** The positions a FAISS search returns: `k` of them, each a position of the index or the padding `-1`. */
  predicate SearchHits(hits: seq<int>, k: nat, n: nat) {
    |hits| == k && forall j :: 0 <= j < |hits| ==> -1 <= hits[j] < n
  }

  /**
   * Against the texts an index was built from, FAISS-style hits never fail to
   * retrieve, and the padding `-1` silently yields the last chunk.
   */
  lemma FaissHitsRetrieve(hits: seq<int>, k: nat, documents: seq<string>)
    requires documents != [] && SearchHits(hits, k, |documents|)
    ensures Retrieve(hits, documents).Success? && |Retrieve(hits, documents).value| == k
    ensures forall j :: 0 <= j < k && hits[j] == -1 ==>
      Retrieve(hits, documents).value[j] == documents[|documents| - 1]
  {
    RetrieveSpec(hits, documents);
  }

  /** An empty corpus makes any non-empty list of hits fail. */
  lemma RetrieveFromNothing(hits: seq<int>)
    requires hits != []
    ensures Retrieve(hits, []).Failure?
  {
    RetrieveSpec(hits, []);
    assert !ValidPosition(hits[0], 0);
  }

  /** `context[:context_length] if len(context) > context_length else context` */
  function Truncate(context: string, limit: nat): string {
    if |context| > limit then context[..limit] else context
  }

  /**
   * The context sent is a prefix of the joined chunks of length at most
   * `limit`; it is the whole context when that is short enough, and exactly
   * `limit` characters otherwise (possibly cutting a chunk in the middle).
   */
  lemma TruncateSpec(context: string, limit: nat)
    ensures var r := Truncate(context, limit);
      && |r| <= limit
      && StartsWith(context, r)
      && (|context| <= limit <==> r == context)
      && (|context| > limit ==> |r| == limit)
      && Truncate(r, limit) == r
  {
  }

  const ContextHeader := "Context:\n"
  const QueryHeader := "\n\nQuery: "
  const AnswerHeader := "\n\nAnswer:"

  /** The prompt template `f"Context:\n{context}\n\nQuery: {query}\n\nAnswer:"`. */
  function Prompt(context: string, query: string): string {
    ContextHeader + context + QueryHeader + query + AnswerHeader
  }

  /** The prompt is laid out as header, context, query header, query, answer header. */
  lemma PromptLayout(context: string, query: string)
    ensures var p := Prompt(context, query); var c := |context|;
      && |p| == c + |query| + 27
      && p[..9] == ContextHeader
      && p[9..9 + c] == context
      && p[9 + c..18 + c] == QueryHeader
      && p[18 + c..|p| - 9] == query
      && p[|p| - 9..] == AnswerHeader
  {
  }

  /** Given the length of the context, the prompt determines both context and query. */
  lemma PromptInjective(c1: string, q1: string, c2: string, q2: string)
    requires |c1| == |c2| && Prompt(c1, q1) == Prompt(c2, q2)
    ensures c1 == c2 && q1 == q2
  {
    PromptLayout(c1, q1);
    PromptLayout(c2, q2);
  }

  /** The options sent with the prompt; `repeat_penalty` is a float and is not modelled. */
  datatype GenerateOptions = GenerateOptions(numCtx: nat, numPredict: nat)

  /** What `client.generate` returns: nothing usable (a falsy response), or a response text. */
  datatype Reply = NoReply | Reply(text: string)

  const NoResponse := "No response generated."

  /** The answer read from the reply: the fallback message for a falsy response, else the stripped text. */
  function Answer(reply: Reply): string {
    match reply
    case NoReply => NoResponse
    case Reply(text) => Strip(text)
  }

  /**
   * A falsy response gives the fallback message; otherwise the answer is the
   * reply with its surrounding whitespace removed, which is empty when the
   * reply is blank, so an empty answer is not replaced by the fallback.
   */
  lemma AnswerSpec(reply: Reply)
    ensures reply.NoReply? ==> Answer(reply) == NoResponse
    ensures reply.Reply? ==> var a := Answer(reply);
      && (a == [] || (!IsSpace(a[0]) && !IsSpace(a[|a| - 1])))
      && Visible(a) == Visible(reply.text)
      && (a == [] <==> AllSpace(reply.text))
  {
    if reply.Reply? {
      StripShape(reply.text);
      VisibleOfSpaces(reply.text);
      VisibleOfSpaces(Answer(reply));
    }
  }

  /** `generate_response_with_ollama(client, query, context, context_length, num_predict)` */
  function GenerateResponse(generate: (string, GenerateOptions) -> Reply, query: string, context: string,
                            contextLength: nat, numPredict: nat): string {
    Answer(generate(Prompt(Truncate(context, contextLength), query), GenerateOptions(contextLength, numPredict)))
  }

  /** Characters of the context beyond `context_length` never reach the model. */
  lemma ContextTailIgnored(generate: (string, GenerateOptions) -> Reply, query: string, context: string,
                           extra: string, contextLength: nat, numPredict: nat)
    requires |context| >= contextLength
    ensures GenerateResponse(generate, query, context + extra, contextLength, numPredict)
         == GenerateResponse(generate, query, context, contextLength, numPredict)
  {
    assert Truncate(context + extra, contextLength) == Truncate(context, contextLength);
  }

  /** `rag_system`'s constants: the loader's and the generator's defaults and the search size it asks for. */
  const DefaultChunkSize: nat := 500
  const DefaultOverlap: nat := 100
  const DefaultContextLength: nat := 2048
  const DefaultNumPredict: nat := 256
  const SearchCount: nat := 5
  const ContextSeparator := "\n---\n"

  /** The index file: absent, or holding an index built from some list of chunk texts. */
  type IndexFile = Option<seq<string>>

  /** The index is rebuilt when forced or when no index file exists. */
  predicate NeedsRebuild(recreate: bool, stored: IndexFile) {
    recreate || stored.None?
  }

  datatype RagError = LoadError(config: ConfigError) | RetrieveError(retrieve: RetrieveError)

  /** The outcome of one `rag_system` call: the answer (or the exception raised) and the index file afterwards. */
  datatype RagRun = RagRun(answer: Result<string, RagError>, indexFile: IndexFile)

  /**
   * `rag_system(query, data_folder, client, k, recreate_index)`: load the
   * chunks with the default window, rebuild or reuse the index, search for
   * `SearchCount` hits whatever `k` is, join the hits with the separator and
   * ask the model.
   */
  function RagSystem(query: string, files: seq<Document>, stored: IndexFile, k: nat, recreate: bool,
                     search: (seq<string>, string, nat) -> seq<int>,
                     generate: (string, GenerateOptions) -> Reply): RagRun
  {
    match LoadSpec(files, DefaultChunkSize, DefaultOverlap)
    case Failure(e) => RagRun(Failure(LoadError(e)), stored)
    case Success(corpus) =>
      var documents := corpus.docs;
      var indexed := if NeedsRebuild(recreate, stored) then documents else stored.value;
      var after := if NeedsRebuild(recreate, stored) then Some(documents) else stored;
      match Retrieve(search(indexed, query, SearchCount), documents)
      case Failure(e) => RagRun(Failure(RetrieveError(e)), after)
      case Success(hits) =>
        var context := Join(hits, ContextSeparator);
        RagRun(Success(GenerateResponse(generate, query, context, DefaultContextLength, DefaultNumPredict)), after)
  }

  /** With the default window (stride 400) loading never raises. */
  lemma DefaultLoadSucceeds(files: seq<Document>)
    ensures LoadSpec(files, DefaultChunkSize, DefaultOverlap).Success?
  {
    LoadFailure(files, DefaultChunkSize, DefaultOverlap);
  }

  /**
   * A rebuild writes an index of exactly the current chunks; otherwise the
   * stored index file is kept as it is, whatever chunks it was built from.
   */
  lemma RagIndexLifecycle(query: string, files: seq<Document>, stored: IndexFile, k: nat, recreate: bool,
                          search: (seq<string>, string, nat) -> seq<int>,
                          generate: (string, GenerateOptions) -> Reply)
    ensures var run := RagSystem(query, files, stored, k, recreate, search, generate);
      && (NeedsRebuild(recreate, stored) ==>
            && LoadSpec(files, DefaultChunkSize, DefaultOverlap).Success?
            && run.indexFile == Some(LoadSpec(files, DefaultChunkSize, DefaultOverlap).value.docs))
      && (!NeedsRebuild(recreate, stored) ==> run.indexFile == stored)
  {
    DefaultLoadSucceeds(files);
  }

  /**
   * The search runs over the texts of the index in use: the chunks just
   * loaded after a rebuild, the stored texts otherwise. Search oracles that
   * agree on that one request give the same run.
   */
  lemma RagSearchesIndexedTexts(query: string, files: seq<Document>, stored: IndexFile, k: nat, recreate: bool,
                                search1: (seq<string>, string, nat) -> seq<int>,
                                search2: (seq<string>, string, nat) -> seq<int>,
                                generate: (string, GenerateOptions) -> Reply)
    requires NeedsRebuild(recreate, stored) && LoadSpec(files, DefaultChunkSize, DefaultOverlap).Success? ==>
      var docs := LoadSpec(files, DefaultChunkSize, DefaultOverlap).value.docs;
      search1(docs, query, SearchCount) == search2(docs, query, SearchCount)
    requires !NeedsRebuild(recreate, stored) ==>
      search1(stored.value, query, SearchCount) == search2(stored.value, query, SearchCount)
    ensures RagSystem(query, files, stored, k, recreate, search1, generate)
         == RagSystem(query, files, stored, k, recreate, search2, generate)
  {
  }

  /** The search is only ever asked for `SearchCount` hits: oracles that agree there give the same run. */
  lemma RagAsksForFive(query: string, files: seq<Document>, stored: IndexFile, k: nat, recreate: bool,
                       search1: (seq<string>, string, nat) -> seq<int>,
                       search2: (seq<string>, string, nat) -> seq<int>,
                       generate: (string, GenerateOptions) -> Reply)
    requires forall texts, q :: search1(texts, q, SearchCount) == search2(texts, q, SearchCount)
    ensures RagSystem(query, files, stored, k, recreate, search1, generate)
         == RagSystem(query, files, stored, k, recreate, search2, generate)
  {
  }

  /** `rag_system`'s own `k` has no effect. */
  lemma RagIgnoresK(query: string, files: seq<Document>, stored: IndexFile, k1: nat, k2: nat, recreate: bool,
                    search: (seq<string>, string, nat) -> seq<int>,
                    generate: (string, GenerateOptions) -> Reply)
    ensures RagSystem(query, files, stored, k1, recreate, search, generate)
         == RagSystem(query, files, stored, k2, recreate, search, generate)
  {
  }

  /** A search that behaves like FAISS: `k` hits, each a position of the indexed texts or `-1`. */
  ghost predicate FaissLike(search: (seq<string>, string, nat) -> seq<int>) {
    forall texts, q, k :: SearchHits(search(texts, q, k), k, |texts|)
  }

  /**
   * With a freshly built index over a non-empty corpus and a FAISS-like search,
   * `rag_system` always answers, and the model sees at most `context_length`
   * characters of context.
   */
  lemma RebuiltIndexAnswers(query: string, files: seq<Document>, stored: IndexFile, k: nat, recreate: bool,
                            search: (seq<string>, string, nat) -> seq<int>,
                            generate: (string, GenerateOptions) -> Reply)
    requires FaissLike(search) && NeedsRebuild(recreate, stored)
    requires LoadSpec(files, DefaultChunkSize, DefaultOverlap).Success?
    requires LoadSpec(files, DefaultChunkSize, DefaultOverlap).value.docs != []
    ensures RagSystem(query, files, stored, k, recreate, search, generate).answer.Success?
  {
    var documents := LoadSpec(files, DefaultChunkSize, DefaultOverlap).value.docs;
    var hits := search(documents, query, SearchCount);
    assert SearchHits(hits, SearchCount, |documents|);
    FaissHitsRetrieve(hits, SearchCount, documents);
  }

  /** A single `.txt` file holding one short normalised paragraph loads as exactly one chunk. */
  lemma LoadOneShortFile(name: string, text: string)
    requires IsTxt(name) && Canonical(text) && 0 < |text| <= DefaultChunkSize - DefaultOverlap
    ensures LoadSpec([Document(name, text)], DefaultChunkSize, DefaultOverlap) == Success(Corpus([text], [name]))
  {
    OneCanonicalParagraph(text);
    ChunksOfOne(text, DefaultChunkSize, DefaultOverlap);
    ShortParagraph(text, DefaultChunkSize, DefaultOverlap);
    LoadOne(Document(name, text), DefaultChunkSize, DefaultOverlap);
    assert Repeat(name, 1) == [name];
  }

  /**
   * A reused index is not checked against the chunks just loaded: when the
   * corpus has shrunk to one chunk, a first hit that is a valid position of
   * the stored index but lies past the new end makes the run raise.
   */
  lemma StaleIndexFails(name: string, text: string, stored: seq<string>, query: string, k: nat,
                        search: (seq<string>, string, nat) -> seq<int>,
                        generate: (string, GenerateOptions) -> Reply)
    requires IsTxt(name) && Canonical(text) && 0 < |text| <= DefaultChunkSize - DefaultOverlap
    requires SearchHits(search(stored, query, SearchCount), SearchCount, |stored|)
    requires search(stored, query, SearchCount)[0] >= 1
    ensures RagSystem(query, [Document(name, text)], Some(stored), k, false, search, generate)
         == RagRun(Failure(RetrieveError(IndexOutOfRange(search(stored, query, SearchCount)[0]))), Some(stored))
  {
    LoadOneShortFile(name, text);
    var hits := search(stored, query, SearchCount);
    assert PyIndex(hits[0], 1) == None;
  }

  /** Chunks hold no newline, so the context splits back into the retrieved chunks on the separator. */
  lemma ContextRoundTrip(files: seq<Document>, hits: seq<int>)
    requires LoadSpec(files, DefaultChunkSize, DefaultOverlap).Success?
    requires hits != []
    requires Retrieve(hits, LoadSpec(files, DefaultChunkSize, DefaultOverlap).value.docs).Success?
    ensures var retrieved := Retrieve(hits, LoadSpec(files, DefaultChunkSize, DefaultOverlap).value.docs).value;
      Split(Join(retrieved, ContextSeparator), ContextSeparator) == retrieved
  {
    var documents := LoadSpec(files, DefaultChunkSize, DefaultOverlap).value.docs;
    var retrieved := Retrieve(hits, documents).value;
    LoadAlignment(files, DefaultChunkSize, DefaultOverlap);
    RetrieveSpec(hits, documents);
    forall j | 0 <= j < |retrieved|
      ensures ContextSeparator[0] !in retrieved[j]
    {
      var c := retrieved[j];
      assert c == documents[PyIndex(hits[j], |documents|).value];
      assert WellFormedChunk(c, DefaultChunkSize);
      forall m | 0 <= m < |c|
        ensures c[m] != '\n'
      {
        assert IsSpace(c[m]) ==> c[m] == ' ';
      }
    }
    SplitJoin(retrieved, ContextSeparator);
  }
}
