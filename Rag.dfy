/**
 The retrieval side of the bot: the FAISS index's list of chunks kept in
 step with its vectors, `RAGModel.index_document`, the context lookup and
 prompt of `RAGModel.query`, and `RAGModel.clear_index`.

 The sentence encoder, the nearest-neighbour search and the Cohere call are
 outside the model: the encoder is a parameter `encode`, the search result a
 parameter `hits` (the row numbers FAISS returns) and the generator a
 parameter `generate`.
 */
module Rag {
  import opened Text
  import opened Chunking

  /** What `RAGModel` raises. */
  datatype Error =
    | NoTextExtracted          // index_document: the PDF produced no chunk
    | IndexOutOfRange(index: int)  // query: `chunks[idx]` raised IndexError

  datatype Result<T> = Success(value: T) | Failure(error: Error)

  /** One embedding row. */
  type Vector = seq<real>

  /** The Universal Sentence Encoder's output width, the index's default. */
  const Dimension: nat := 512


  // ---------------------------------------------------------------------
  // Python list indexing

  /** `idx` is a valid Python index into a list of length `n`: negative
      indices count from the end. */
  predicate InRange(idx: int, n: nat) {
    -(n as int) <= idx < n
  }

  /** `xs[idx]` in Python. */
  function At(xs: seq<string>, idx: int): string
    requires InRange(idx, |xs|)
  {
    if idx < 0 then xs[|xs| + idx] else xs[idx]
  }

  // ---------------------------------------------------------------------
  // contexts = [self.index.chunks[idx] for idx in indices[0]]

  /** The chunks the search hits name, in hit order; the first hit that is
      not a valid index raises. */
  function Contexts(chunks: seq<string>, hits: seq<int>): Result<seq<string>>
  {
    if hits == [] then Success([])
    else if !InRange(hits[0], |chunks|) then Failure(IndexOutOfRange(hits[0]))
    else match Contexts(chunks, hits[1..])
      case Failure(e) => Failure(e)
      case Success(rest) => Success([At(chunks, hits[0])] + rest)
  }

  /** The lookup succeeds exactly when every hit is a valid index, and then
      yields one context per hit: the chunk that hit names. */
  lemma {:induction false} ContextsSuccess(chunks: seq<string>, hits: seq<int>)
    ensures Contexts(chunks, hits).Success? <==> forall i :: 0 <= i < |hits| ==> InRange(hits[i], |chunks|)
    ensures Contexts(chunks, hits).Success? ==>
      var cs := Contexts(chunks, hits).value;
      |cs| == |hits| && forall i :: 0 <= i < |hits| ==> cs[i] == At(chunks, hits[i])
  {
    if hits != [] {
      ContextsSuccess(chunks, hits[1..]);
      assert forall i :: 1 <= i < |hits| ==> hits[1..][i - 1] == hits[i];
      if Contexts(chunks, hits).Success? {
        var cs := Contexts(chunks, hits).value;
        forall i | 0 <= i < |hits| ensures cs[i] == At(chunks, hits[i]) {
          if i > 0 {
            assert cs[i] == Contexts(chunks, hits[1..]).value[i - 1];
          }
        }
      }
    }
  }

  /** A failed lookup reports the first hit that is not a valid index. */
  lemma {:induction false} ContextsFailure(chunks: seq<string>, hits: seq<int>) returns (j: nat)
    requires Contexts(chunks, hits).Failure?
    ensures j < |hits| && !InRange(hits[j], |chunks|)
    ensures forall i :: 0 <= i < j ==> InRange(hits[i], |chunks|)
    ensures Contexts(chunks, hits).error == IndexOutOfRange(hits[j])
  {
    if !InRange(hits[0], |chunks|) {
      j := 0;
    } else {
      var k := ContextsFailure(chunks, hits[1..]);
      j := k + 1;
      assert forall i :: 1 <= i < j ==> hits[1..][i - 1] == hits[i];
    }
  }

  /** The rows FAISS's flat index returns for a search of `k` neighbours
      among `ntotal` vectors: `k` row numbers, `-1` where fewer than `k`
      vectors exist. */
  predicate SearchHits(hits: seq<int>, ntotal: nat, k: nat) {
    |hits| == k && forall i :: 0 <= i < |hits| ==> -1 <= hits[i] < ntotal
  }

  /** Over a non-empty index, every hit FAISS can return resolves; a `-1`
      padding row picks the last chunk, as Python's `chunks[-1]` does. */
  lemma {:induction false} SearchHitsResolve(chunks: seq<string>, hits: seq<int>, k: nat)
    requires chunks != [] && SearchHits(hits, |chunks|, k)
    ensures Contexts(chunks, hits).Success?
    ensures var cs := Contexts(chunks, hits).value;
      |cs| == k && forall i :: 0 <= i < k && hits[i] == -1 ==> cs[i] == chunks[|chunks| - 1]
  {
    ContextsSuccess(chunks, hits);
  }

  /** Over an empty index, any search that returns a row fails the lookup. */
  lemma {:induction false} EmptyIndexLookupFails(hits: seq<int>)
    requires hits != []
    ensures Contexts([], hits) == Failure(IndexOutOfRange(hits[0]))
  {
  }

  // ---------------------------------------------------------------------
  // The prompt sent to the generator

  /** The text before the contexts; the blank second line holds the eight
      spaces of the source's indentation. */
  const PromptHeader: string := "Based on the following contexts, answer the question.\n        \nContexts:\n"
  const QuestionLabel: string := "\n\nQuestion: "
  const AnswerLabel: string := "\n\nAnswer:"

  function Prompt(contexts: seq<string>, question: string): string {
    PromptHeader + Join(contexts, " ") + QuestionLabel + question + AnswerLabel
  }

  /** The prompt opens with the header, then holds the contexts joined by
      single spaces, then the question line, the question and the answer cue. */
  lemma {:induction false} PromptLayout(contexts: seq<string>, question: string)
    ensures var p, h, body := Prompt(contexts, question), |PromptHeader|, Join(contexts, " ");
      var q := h + |body| + |QuestionLabel|;
      |p| == q + |question| + |AnswerLabel| &&
      p[..h] == PromptHeader &&
      p[h..h + |body|] == body &&
      p[h + |body|..q] == QuestionLabel &&
      p[q..q + |question|] == question &&
      p[q + |question|..] == AnswerLabel
  {
  }

  /** A slice of the middle part of `a + m + c` is the same slice of `m`. */
  lemma {:induction false} SliceOfMiddle(a: string, m: string, c: string, lo: nat, hi: nat)
    requires lo <= hi <= |m|
    ensures (a + m + c)[|a| + lo..|a| + hi] == m[lo..hi]
  {
    assert (a + m + c)[|a| + lo..|a| + hi] == (a + m + c)[|a|..|a| + |m|][lo..hi];
    assert (a + m + c)[|a|..|a| + |m|] == m;
  }

  /** Each part of a space-joined list framed as `head + joined + tail`
      sits at its offset after `head`, followed by one space, or by `tail`
      when it is the last. */
  lemma {:induction false} PartInFrame(head: string, parts: seq<string>, tail: string, i: nat)
    requires i < |parts|
    ensures var p, o := head + Join(parts, " ") + tail, |head| + Offset(parts, " ", i);
      var e := o + |parts[i]|;
      e <= |p| && p[o..e] == parts[i] &&
      (i + 1 < |parts| ==> e < |p| && p[e] == ' ') &&
      (i + 1 == |parts| ==> e + |tail| == |p| && p[e..] == tail)
  {
    var body := Join(parts, " ");
    var p := head + body + tail;
    JoinLayout(parts, " ", i);
    var o := Offset(parts, " ", i);
    var e := o + |parts[i]|;
    SliceOfMiddle(head, body, tail, o, e);
    if i + 1 < |parts| {
      SliceOfMiddle(head, body, tail, e, e + 1);
      assert body[e..e + 1] == " ";
      assert p[|head| + e] == p[|head| + e..|head| + e + 1][0] == ' ';
    } else {
      assert p[|head| + e..] == tail;
    }
  }

  /** Each context sits in the prompt at its place in the joined text, and is
      followed by one space, or by the question line when it is the last one. */
  lemma {:induction false} ContextInPrompt(contexts: seq<string>, question: string, i: nat)
    requires i < |contexts|
    ensures var p, o := Prompt(contexts, question), |PromptHeader| + Offset(contexts, " ", i);
      var e := o + |contexts[i]|;
      e <= |p| && p[o..e] == contexts[i] &&
      (i + 1 < |contexts| ==> e < |p| && p[e] == ' ') &&
      (i + 1 == |contexts| ==> e + |QuestionLabel| <= |p| && p[e..e + |QuestionLabel|] == QuestionLabel)
  {
    var tail := QuestionLabel + question + AnswerLabel;
    assert Prompt(contexts, question) == PromptHeader + Join(contexts, " ") + tail;
    PartInFrame(PromptHeader, contexts, tail, i);
    if i + 1 == |contexts| {
      assert tail[..|QuestionLabel|] == QuestionLabel;
    }
  }

  /** The contexts section carries exactly the words of the contexts, in
      order: joining with spaces neither merges nor splits any word. */
  lemma {:induction false} PromptContextWords(contexts: seq<string>, question: string)
    ensures var p, h := Prompt(contexts, question), |PromptHeader|;
      h + |Join(contexts, " ")| <= |p| &&
      SplitWords(p[h..h + |Join(contexts, " ")|]) == WordsOf(contexts)
  {
    PromptLayout(contexts, question);
    SplitWordsJoinedParts(contexts, " ");
  }

  /** What `query` returns, without the distances. */
  datatype Response = Response(answer: string, contexts: seq<string>)

  /** `create_embeddings`: the encoder applied to each chunk, in order. */
  function Embed(encode: string -> Vector, chunks: seq<string>): seq<Vector>
  {
    seq(|chunks|, i requires 0 <= i < |chunks| => encode(chunks[i]))
  }

  /** Each row is the encoding of its chunk. */
  predicate Encodes(encode: string -> Vector, rows: seq<Vector>, chunks: seq<string>) {
    |rows| == |chunks| && forall i :: 0 <= i < |rows| ==> rows[i] == encode(chunks[i])
  }

  /** Appending a chunk list and its embeddings keeps every row the encoding
      of its chunk. */
  lemma {:induction false} EmbedAppend(encode: string -> Vector, rows: seq<Vector>, chunks: seq<string>, more: seq<string>)
    requires Encodes(encode, rows, chunks)
    ensures Encodes(encode, rows + Embed(encode, more), chunks + more)
  {
    var r, c := rows + Embed(encode, more), chunks + more;
    forall i | 0 <= i < |r| ensures r[i] == encode(c[i]) {
      if i >= |rows| {
        assert r[i] == Embed(encode, more)[i - |rows|];
        assert c[i] == more[i - |rows|];
      }
    }
  }

  // ---------------------------------------------------------------------
  // FAISSIndex

  /** A flat L2 index together with the chunk text of each of its rows. */
  class FaissIndex {
    const dimension: nat
    /** The rows of the IndexFlatL2, in insertion order. */
    var vectors: seq<Vector>
    var chunks: seq<string>

    /** Every row has the index's width and is paired with one chunk, so
        row `i` of a search result names `chunks[i]`. */
    predicate Aligned()
      reads this
    {
      |vectors| == |chunks| && forall i :: 0 <= i < |vectors| ==> |vectors[i]| == dimension
    }

    /** `FAISSIndex(dimension)`: an empty index. */
    constructor (dimension: nat)
      ensures this.dimension == dimension
      ensures vectors == [] && chunks == []
      ensures Aligned()
    {
      this.dimension := dimension;
      vectors := [];
      chunks := [];
    }

    /** `add_vectors`: the rows are appended to the index and the chunks to
        the chunk list. FAISS refuses rows of another width. */
    method AddVectors(rows: seq<Vector>, newChunks: seq<string>)
      requires forall i :: 0 <= i < |rows| ==> |rows[i]| == dimension
      modifies this
      ensures vectors == old(vectors) + rows
      ensures chunks == old(chunks) + newChunks
      ensures old(Aligned()) && |rows| == |newChunks| ==> Aligned()
    {
      vectors := vectors + rows;
      chunks := chunks + newChunks;
    }
  }

  // ---------------------------------------------------------------------
  // RAGModel

  class RagModel {
    /** `DocumentProcessor.encoder`, loaded once and used for every
        document and every question. */
    const encode: string -> Vector
    var index: FaissIndex

    /** The index has the encoder's width, its rows and chunks are paired,
        and each row is the encoding of its chunk. */
    ghost predicate Valid()
      reads this, index
    {
      (forall s :: |encode(s)| == Dimension) &&
      index.dimension == Dimension && index.Aligned() &&
      Encodes(encode, index.vectors, index.chunks)
    }

    /** `RAGModel(...)` with no saved index on disk: an empty index of the
        encoder's width. */
    constructor (encode: string -> Vector)
      requires forall s :: |encode(s)| == Dimension
      ensures this.encode == encode
      ensures Valid() && fresh(index)
      ensures index.vectors == [] && index.chunks == []
    {
      this.encode := encode;
      index := new FaissIndex(Dimension);
    }

    /** `index_document` on a PDF whose pages extract to `pages`: fails when
        the document yields no chunk, leaving the index as it was; otherwise
        appends the document's chunks and their embeddings and returns the
        number of chunks added. */
    method IndexDocument(pages: seq<string>) returns (r: Result<nat>)
      requires Valid()
      modifies index
      ensures Valid()
      ensures r.Failure? <==> ChunkPages(pages) == []
      ensures r.Failure? ==> r.error == NoTextExtracted
      ensures r.Failure? ==> index.vectors == old(index.vectors) && index.chunks == old(index.chunks)
      ensures r.Success? ==> r.value == |ChunkPages(pages)|
      ensures r.Success? ==> index.chunks == old(index.chunks) + ChunkPages(pages)
      ensures r.Success? ==> index.vectors == old(index.vectors) + Embed(encode, ChunkPages(pages))
    {
      var chunks := ProcessPdf(pages);
      if chunks == [] {
        return Failure(NoTextExtracted);
      }
      var embeddings := Embed(encode, chunks);
      EmbedAppend(encode, index.vectors, index.chunks, chunks);
      index.AddVectors(embeddings, chunks);
      r := Success(|chunks|);
    }

    /** `query` once the search has returned the rows `hits`: looks up the
        context of each hit, builds the prompt from them and returns the
        generated text, stripped, with the contexts. A hit that is not a
        valid index fails the query. */
    method Query(question: string, hits: seq<int>, generate: string -> string) returns (r: Result<Response>)
      ensures r.Success? <==> forall i :: 0 <= i < |hits| ==> InRange(hits[i], |index.chunks|)
      ensures r.Success? ==> |r.value.contexts| == |hits|
      ensures r.Success? ==> forall i :: 0 <= i < |hits| ==> r.value.contexts[i] == At(index.chunks, hits[i])
      ensures r.Success? ==> r.value.answer == Strip(generate(Prompt(r.value.contexts, question)))
      ensures r.Success? ==> Stripped(r.value.answer)
      ensures r.Failure? ==>
        exists j :: 0 <= j < |hits| && r.error == IndexOutOfRange(hits[j]) && !InRange(hits[j], |index.chunks|) &&
          forall i :: 0 <= i < j ==> InRange(hits[i], |index.chunks|)
    {
      var found := Contexts(index.chunks, hits);
      ContextsSuccess(index.chunks, hits);
      if found.Failure? {
        var j := ContextsFailure(index.chunks, hits);
        return Failure(found.error);
      }
      var contexts := found.value;
      var prompt := Prompt(contexts, question);
      var answer := Strip(generate(prompt));
      r := Success(Response(answer, contexts));
    }

    /** `clear_index`: a fresh, empty index replaces the current one. */
    method ClearIndex()
      requires Valid()
      modifies this
      ensures Valid() && fresh(index)
      ensures index.vectors == [] && index.chunks == []
    {
      index := new FaissIndex(Dimension);
    }
  }
}
