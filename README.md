# RAG QA bot: chunking and index model

A Dafny model of the core of the RAG question-answering server (`server.py`).
It covers four things:

- `DocumentProcessor.process_pdf` splits the text of each PDF page into chunks.
  Paragraphs are the pieces between blank lines (`"\n\n"`), stripped, with blank pieces dropped.
  A paragraph of up to 512 characters is one chunk.
  A longer one is cut into groups of 100 words, each joined by single spaces.
- `FAISSIndex` keeps its vectors and the chunk text of each row side by side.
- `RAGModel.index_document`, `RAGModel.query` (up to the generator call) and `RAGModel.clear_index`.

Files:

- `Text.dfy` (module `Text`): the Python string primitives the chunker uses.
  These are the `str.isspace` whitespace set, `strip()`, `split(sep)`, `split()` and `' '.join`.
  `strip()` is proved to remove exactly the whitespace at the ends.
  `split(sep)` is proved to cut at every occurrence, leftmost first, and to lose no character.
  `split()` and `' '.join` are proved to undo each other on word lists.
- `Chunking.dfy` (module `Chunking`): the chunking policy as functions on values.
  It also holds `ProcessPdf`, the nested loops of `process_pdf`, proved to compute exactly that policy.
- `Rag.dfy` (module `Rag`): Python list indexing for the context lookup, the prompt text, and the classes `FaissIndex` and `RagModel`.

`process_pdf` works on text extracted by PyPDF2, so `ProcessPdf` takes the pages' text, `pages: seq<string>`.
The sentence encoder is the function `encode` a `RagModel` is built with. Like `DocumentProcessor.encoder`, it is fixed once and yields 512-wide rows.
The FAISS search result is a parameter `hits` (the row numbers returned for the question).
The Cohere generator is a parameter `generate`.
Characters are Unicode scalar values, so `|p| > 512` counts what Python's `len` counts.
This holds for any text without lone surrogates; a Dafny `string` cannot hold those.

## Model

| member | source | states |
|---|---|---|
| Text.IsSpace | server.py:30-34 | definition: the characters `str.isspace` accepts, which `strip()` and `split()` treat as whitespace |
| Text.Strip | server.py:30 | `strip()` output has no whitespace at either end; it is empty exactly when the input is all whitespace; a string already stripped is returned unchanged |
| Text.StripRemovesEnds | server.py:30 | `strip()` output is the slice of the input between a whitespace prefix and a whitespace suffix, so only the ends are removed |
| Text.Split | server.py:30 | `split('\n\n')` always yields at least one piece |
| Text.SplitPiecesFree | server.py:30 | no piece of `split(sep)` contains `sep`, and no piece but the last runs into the separator cut after it, so every occurrence is cut, leftmost first |
| Text.SplitJoin | server.py:30 | joining the pieces of `split(sep)` with `sep` gives back the original text, so splitting loses no character |
| Text.SplitWithoutSeparator | server.py:30 | a text that does not contain the separator splits into exactly one piece, itself |
| Text.SplitOfBlank | server.py:30 | every piece of an all-whitespace text is all whitespace |
| Text.SplitWords | server.py:34 | definition: `split()` with no argument, the maximal runs of non-whitespace in order |
| Text.SplitWordsAreWords | server.py:34 | every piece `split()` yields is non-empty and free of whitespace |
| Text.SplitWordsAllSpace | server.py:34 | an all-whitespace string has no words |
| Text.SplitWordsAppend | server.py:34 | cutting a string just before a whitespace character cuts its word list at the same place |
| Text.SplitWordsSpacePrefix | server.py:34 | leading whitespace does not change the word list |
| Text.SplitWordsStrip | server.py:30-34 | stripping a paragraph does not change its words |
| Text.SplitWordsJoinedParts | server.py:30-34 | the words of a whitespace-joined list are the words of its parts, in order |
| Text.SplitWordsJoin | server.py:34-36 | `' '.join(words).split()` gives back `words` for any list of words |
| Text.JoinWordsStripped | server.py:36-37 | `' '.join` of one or more words is non-empty and stripped, so the `if chunk:` test always passes |
| Text.Join | server.py:36 | definition: `sep.join(parts)` |
| Text.JoinLayout | server.py:36 | `sep.join(parts)` places each part at its offset, followed by a separator unless it is last, and nothing follows the last part |
| Text.ConcatMap | server.py:27-31 | definition: the outputs for each element of a list, concatenated in list order, as the appending loops build them |
| Text.ConcatMapAppend | server.py:27-31 | looping over a concatenated list appends the outputs of both halves |
| Text.ConcatMapPrefix | server.py:27-31 | one more loop turn appends the outputs of the next element |
| Text.ConcatMapCons | server.py:27-31 | the outputs of the first element come before those of the rest |
| Chunking.CleanSegments | server.py:30 | definition: `[p.strip() for p in segments if p.strip()]` |
| Chunking.Paragraphs | server.py:30 | definition: the clean segments of `text.split('\n\n')` |
| Chunking.CleanSegmentsWellFormed | server.py:30 | every paragraph is non-empty and stripped, and there are no more paragraphs than segments |
| Chunking.CleanSegmentsAppend | server.py:30 | the comprehension keeps segment order: the paragraphs of two segment lists concatenate |
| Chunking.BlankSegmentIgnored | server.py:30 | a blank segment anywhere in the list contributes no paragraph |
| Chunking.CleanSegmentsAllBlank | server.py:30 | a list of blank segments yields no paragraph |
| Chunking.CleanSegmentsWords | server.py:30 | stripping and dropping blank segments keeps every word, in order |
| Chunking.BlankPageHasNoParagraphs | server.py:30 | a page of whitespace (empty text included) has no paragraphs |
| Chunking.SingleParagraphPage | server.py:30 | a page without a blank line and with some non-whitespace is one paragraph, its stripped text |
| Chunking.Groups | server.py:35-38 | definition: `' '.join(words[i:i + 100])` for i = 0, 100, 200, ... below the word count |
| Chunking.GroupsCount | server.py:35 | there are ceil(n/100) groups of n words, one per start index 0, 100, 200, ... |
| Chunking.GroupsChunks | server.py:35-38 | every group is non-empty, has no whitespace at either end, holds 1 to 100 words and is exactly those words joined by single spaces |
| Chunking.GroupsFull | server.py:35-36 | every group but the last holds exactly 100 words |
| Chunking.GroupsWords | server.py:35-38 | the words of the groups, read in order, are the input words |
| Chunking.GroupsProperties | server.py:34-38 | the word groups number ceil(n/100); each is a well-formed chunk of 1 to 100 words joined by single spaces, and all but the last have exactly 100; read in order, their words are the paragraph's words |
| Chunking.ChunkParagraph | server.py:33-40 | definition: the word groups of a paragraph longer than 512 characters, else the paragraph alone |
| Chunking.ChunkParagraphs | server.py:31-40 | definition: the chunks of each paragraph in turn |
| Chunking.ChunkPage | server.py:28-40 | definition: the chunks of a page's paragraphs |
| Chunking.ChunkPages | server.py:27-41 | definition: the chunks of each page in turn, the list `process_pdf` returns |
| Chunking.ChunkParagraphWellFormed | server.py:33-40 | every chunk a paragraph yields is non-empty and stripped |
| Chunking.ChunkParagraphsWellFormed | server.py:31-40 | every chunk a list of paragraphs yields is non-empty and stripped |
| Chunking.ChunkPagesWellFormed | server.py:22-41 | every chunk of a document is non-empty and has no whitespace at either end |
| Chunking.LongParagraph | server.py:33-38 | a paragraph longer than 512 characters with n words yields ceil(n/100) chunks of 1 to 100 words each, all but the last of exactly 100, each its words joined by single spaces, and the chunks' words are the paragraph's words |
| Chunking.ShortParagraphs | server.py:39-40 | short stripped paragraphs each become exactly one chunk, themselves, in order |
| Chunking.ShortParagraphPage | server.py:30-40 | a page that is one paragraph of at most 512 characters, with any surrounding whitespace, yields exactly one chunk, the stripped text |
| Chunking.BlankPage | server.py:30-31 | a whitespace-only page contributes no chunk |
| Chunking.ChunkParagraphsWords | server.py:31-40 | chunking keeps every word of every paragraph, in order |
| Chunking.PageWords | server.py:28-40 | the words of a page's chunks are exactly the page's words, in order |
| Chunking.PagesAppend | server.py:27-41 | chunks come out in page order: the chunks of two page lists concatenate |
| Chunking.DocumentWords | server.py:22-41 | the words of all chunks are the words of all pages, page by page |
| Chunking.AppendParagraph | server.py:31-40 | the inner loop appends exactly the chunks of the paragraph to the list built so far |
| Chunking.AppendPage | server.py:27-40 | one page's turn appends exactly that page's chunks |
| Chunking.ProcessPdf | server.py:22-41 | the returned list is the chunk list of the pages in order; every chunk is non-empty and stripped; the chunks hold exactly the pages' words |
| Rag.At | server.py:133 | definition: `chunks[idx]`, negative indices counting from the end |
| Rag.Contexts | server.py:133 | definition: `[chunks[idx] for idx in hits]`, raising on the first invalid index |
| Rag.ContextsSuccess | server.py:133 | the lookup succeeds exactly when every hit is a valid Python index, and then there is one context per hit, the chunk at that (possibly negative) index |
| Rag.ContextsFailure | server.py:133 | a failed lookup raises on the first hit that is not a valid index |
| Rag.SearchHitsResolve | server.py:130-133 | over a non-empty index, every row number FAISS can return resolves; FAISS's `-1` padding picks the last chunk |
| Rag.EmptyIndexLookupFails | server.py:130-133 | over an empty index, a search that returns any row fails on the first one |
| Rag.Prompt | server.py:136-143 | definition: the exact prompt text. That is `PromptHeader` ("Based on the following contexts, answer the question.", a line of eight spaces, "Contexts:"), the contexts joined by single spaces, `QuestionLabel` (a blank line and "Question: "), the question, and `AnswerLabel` (a blank line and "Answer:"). The source's line breaks are read as `\n` |
| Rag.PromptLayout | server.py:136-143 | the prompt is the header, the contexts joined by single spaces, the question line, the question and the answer cue, in that order |
| Rag.ContextInPrompt | server.py:136-143 | each context sits at its offset within the prompt, followed by one space, or by the question line if it is last |
| Rag.PromptContextWords | server.py:139 | the contexts section of the prompt holds exactly the contexts' words, in order |
| Rag.Embed | server.py:43-49 | definition: `create_embeddings`, the encoder applied to each chunk in order |
| Rag.EmbedAppend | server.py:43-49 | embedding new chunks and appending the rows keeps every row the encoding of the chunk at the same position |
| Rag.FaissIndex.Aligned | server.py:54-61 | definition: as many rows as chunks, every row of the index's width, so row i names chunk i |
| Rag.FaissIndex.constructor | server.py:52-56 | a new index has the given width, no vectors and no chunks |
| Rag.FaissIndex.AddVectors | server.py:58-61 | the rows and the chunks are appended; as many rows as chunks keeps rows and chunks paired |
| Rag.RagModel.Valid | server.py:110-113 | definition: the one encoder yields 512-wide rows, the index is 512 wide and aligned, and each row is the encoding of its chunk |
| Rag.RagModel.constructor | server.py:80-90 | a new model keeps the given encoder and holds a fresh, empty 512-wide index |
| Rag.RagModel.IndexDocument | server.py:101-118 | fails with "no text" exactly when the document yields no chunk, and then leaves the index unchanged; otherwise appends the document's chunks and their embeddings and returns the chunk count; each row stays the encoding of its chunk |
| Rag.RagModel.Query | server.py:120-158 | fails exactly when some hit is not a valid index, naming the first such hit; otherwise returns one context per hit, with the answer being the stripped generator output for the prompt built from those contexts |
| Rag.RagModel.ClearIndex | server.py:160-162 | the model's index is replaced by a fresh, empty one |

## Left out

- PDF text extraction (PyPDF2): `ProcessPdf` takes the extracted text of each page.
- The effect of opening and reading the PDF file, including the errors it can raise, is not modelled.
- The sentence encoder (TensorFlow Hub) is the function `RagModel.encode`, and its values are never inspected beyond their width.
- The floating-point embedding rows are modelled as sequences of reals.
- `FAISSIndex.search`'s nearest-neighbour computation and the distances it returns are left out.
  The query takes the returned row numbers as `hits`.
  `SearchHits` describes the shape FAISS gives them: `k` rows, each a valid row or `-1`.
- `top_k` only fixes how many hits the search returns, so it is part of `hits`.
- The Cohere client and its `generate` call is the parameter `generate`; the sampling settings are not modelled.
- `RagModel.Query`: the encoder, the search and the generator are total functions here, so the query can fail only at the context lookup. The exceptions they can raise in the source, which propagate to the caller, are not modelled.
- `distances` in the query's result is left out.
- `query`'s encoding of the question has no effect once `hits` is given, so it is left out.
- Persistence is file I/O and is left out. This covers `FAISSIndex.save` and `load`, `RAGModel.__init__` loading a saved index, the save in `index_document`, and the file removal in `clear_index`.
- `RagModel.constructor` therefore models a start with no saved index.
- `load_dotenv` and directory creation are left out.
- The Streamlit front end `QA_bot.py` is not part of this model.
