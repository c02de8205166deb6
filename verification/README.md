# RFP-Chatbot core, modelled in Dafny

RFP-Chatbot is a Streamlit application. Users upload PDF, DOCX or plain-text
files. Each file is cut into sections: a heading heuristic splits it, and
each section is chunked into windows of at most 500 words. Every section text
is embedded. A question is answered from the ten sections most similar to it.
The project models the part of this that is program logic:

- `text.dfy` (module `Text`): the Python string built-ins the segmenter
  depends on.
  - `str.isspace` (exact character set) and `str.isupper()`;
  - `str.strip()`, `str.split()`, `str.split("\n")` and `sep.join(parts)`.
- `segmenter.dfy` (module `Segmenter`): `Modules/doc_utils.py`.
  - `extract_text`: the MIME-type dispatch.
  - `chunk_text`: a method with a loop, proved against the function `Chunks`.
  - `extract_sections`: a method with a loop, proved against the function
    `Segment`, which is defined through heading-delimited blocks.
  - An independent line-by-line reference, `ExpectedWords`, tags every word
    with the header in force. `SegmentWords` shows that the two definitions
    agree.
- `ranking.dfy` (module `Ranking`): `sims.argsort()[-10:][::-1]`.
  - `argsort` is an insertion sort of indices by score.
  - The `[-10:][::-1]` part is `Highest`.
- `retrieval.dfy` (module `Retrieval`): the flattening of `all_docs` into
  `all_texts`, `all_meta` and `all_embeddings`. It also covers the scores and
  the context string built from the selected sections.
- `session.dfy` (module `App`): the session state as a class `Session`.
  - Fields `allDocs` and `chatHistory`.
  - The upload loop, which skips known file names.
  - The question path: user turn, retrieval, prompt, model call or error
    text, assistant turn.

The sentence encoder is a parameter `embed: string -> Embedding`. So are the
similarity `similarity: (Embedding, Embedding) -> real` and the chat
completion `generate: string -> Reply`. A `Reply` is either the message
content or the text of the exception raised.

Two behaviours of the code shape the model:

- **Ties in the top-10.** The code sorts with numpy's default `argsort`,
  which is not stable, and then reverses. So it fixes no order among equal
  scores, and in particular does not keep them in corpus order.
  - `Ranking.ArgSort` is an insertion sort that keeps equal scores in index
    order. After the reversal, `TopIndices` puts the later index first:
    `TopIndices([1.0, 1.0]) == [1, 0]`.
  - `TopIndices` and `Retrieve` describe that one order.
  - Nothing else depends on it. The contract of `Session.Ask` and the
    `Retrieved*` lemmas admit any selection that satisfies
    `Ranking.TopSelection`, whatever order numpy gives equal scores.
- **Corpus without sections.** With no section loaded, the code calls
  `cosine_similarity` with no embeddings, which raises after the user turn
  has been recorded. `Ask` models this as the outcome `NoCorpus`, with only
  the user turn appended.

## Model

| member | source | states |
|---|---|---|
| Segmenter.ExtractText | Modules/doc_utils.py:18-27 | A PDF, DOCX or plain-text upload yields its extracted text. Any other MIME type yields the empty string. |
| Segmenter.UnsupportedYieldsNoSections | Modules/doc_utils.py:18-27 | An upload of an unsupported MIME type yields no section at all. |
| Segmenter.Chunks | Modules/doc_utils.py:29-39 | `chunk_text(text, n)`: windows of `n` words of `text.split()`, each joined by single spaces. |
| Segmenter.ChunkText | Modules/doc_utils.py:29-39 | The loop returns `Chunks(text, n)`. The chunks are `ceil(len(words)/n)` in number, each holds 1 to `n` words, and all but the last hold exactly `n`. Their words, concatenated, are `text.split()`. |
| Segmenter.ChunksProperties | Modules/doc_utils.py:34-38 | Same as `ChunkText`, plus: every chunk is its own words joined by single spaces. |
| Segmenter.ChunkCount | Modules/doc_utils.py:36 | `range(0, len(words), n)` yields `ceil(len(words)/n)` windows. |
| Segmenter.ChunkShape | Modules/doc_utils.py:36-37 | Each window holds 1 to `n` words, and every window but the last exactly `n`. The windows laid end to end give back the words. |
| Segmenter.ChunkStep | Modules/doc_utils.py:36-38 | One iteration appends the first window of the words still to chunk. |
| Segmenter.IsHeading | Modules/doc_utils.py:82 | A stripped line is a heading when it is upper-case or ends with a colon. |
| Segmenter.Blocks | Modules/doc_utils.py:74-92 | The lines, grouped into blocks: a first block headed "Introduction", then one block per heading line, each holding the stripped non-blank lines that follow it. |
| Segmenter.Segment | Modules/doc_utils.py:72-99 | `extract_sections` as a function of the text: each block's body joined by line feeds and chunked, all chunks under the block's header. |
| Segmenter.ExtractSections | Modules/doc_utils.py:72-99 | The loop over lines returns `Segment(ExtractText(file))`. |
| Segmenter.BlockSections | Modules/doc_utils.py:85-87 | The flush of one block (also at lines 94-97): one section per chunk of the block's body joined by line feeds, all under the block's header. |
| Segmenter.CloseSection | Modules/doc_utils.py:85-87 | Closing a section appends one section per chunk of `"\n".join(body)`, all under the current header, and keeps what came before. |
| Segmenter.BlocksHeading | Modules/doc_utils.py:82-89 | A heading line flushes the open block's sections and opens an empty block under the stripped heading. |
| Segmenter.BlocksBody | Modules/doc_utils.py:90-92 | A non-blank, non-heading line is appended, stripped, to the open block. Closed blocks are unchanged. |
| Segmenter.BlocksBlank | Modules/doc_utils.py:91 | A blank line changes nothing. |
| Segmenter.EmptyBlockSections | Modules/doc_utils.py:83 | A block with no body lines yields no section. This is why consecutive headings emit nothing. |
| Segmenter.BlocksHeaders | Modules/doc_utils.py:77-89 | The first block is headed "Introduction". Every later block is headed by a line that passes the heading test. |
| Segmenter.SegmentWords | Modules/doc_utils.py:72-99 | Pair each section word with its header, in order. The result is exactly the words of the text's non-heading lines, each with the last heading before it (or "Introduction"). Nothing is dropped, duplicated or reordered. |
| Segmenter.SegmentWellFormed | Modules/doc_utils.py:77-97 | Every section has 1 to 500 words joined by single spaces. Its header is "Introduction" or a heading line. |
| Segmenter.BlockSectionsSizes | Modules/doc_utils.py:85-87 | One block yields `ceil(words/500)` sections, and all but the last hold exactly 500 words. |
| Segmenter.SegmentEmpty | Modules/doc_utils.py:83-99 | No section is returned exactly when the text has no word outside heading lines. |
| Segmenter.NoHeadingMeansIntroduction | Modules/doc_utils.py:77 | With no heading line, the header in force is "Introduction". |
| Segmenter.LastHeadingWins | Modules/doc_utils.py:89 | The header in force is the most recent heading line, stripped. |
| Text.IsSpace | Modules/doc_utils.py:34 | Python's whitespace set, exactly: the characters `text.split()` cuts at and `line.strip()` (line 81) removes. |
| Text.IsUpper | Modules/doc_utils.py:82 | `line_strip.isupper()`: some character is an upper-case letter and none is a lower-case letter. |
| Text.Strip | Modules/doc_utils.py:81 | `line.strip()`: the line without its leading and trailing whitespace. |
| Text.Split | Modules/doc_utils.py:34 | `text.split()`: the maximal runs of non-whitespace characters, in order. |
| Text.Join | Modules/doc_utils.py:37 | `sep.join(parts)`: the parts in order with `sep` between consecutive ones. |
| Text.SplitLines | Modules/doc_utils.py:74 | `full_text.split("\n")`: at least one piece, cut at every line feed. |
| Text.StripRemovesSpaceOnly | Modules/doc_utils.py:81 | `line.strip()` is a slice of the line with only whitespace before and after it. |
| Text.StripEnds | Modules/doc_utils.py:81 | A non-empty stripped line neither starts nor ends with whitespace. |
| Text.SplitStrip | Modules/doc_utils.py:81 | Stripping a line does not change its words. |
| Text.JoinSplitLines | Modules/doc_utils.py:74 | `"\n".join(text.split("\n")) == text`. |
| Text.SplitLinesNoBreak | Modules/doc_utils.py:74 | No piece of `text.split("\n")` contains a line feed. |
| Text.SplitJoin | Modules/doc_utils.py:85-86 | Splitting a join of lines with a whitespace separator gives the words of all the lines, in order. |
| Text.SplitJoinWords | Modules/doc_utils.py:34-37 | `" ".join(words).split() == words` for whitespace-free, non-empty words. |
| Text.SplitWords | Modules/doc_utils.py:34 | Every element of `s.split()` is non-empty and free of whitespace. |
| App.EmbedSections | app.py:97-98 | One embedding per section, each the embedding of that section's text. |
| App.IngestKeeps | app.py:96-104 | An appended entry carries the file's name and one embedding per section. |
| App.Names | app.py:90 | `existing_files`: the names of the loaded documents, one per document, in order. |
| App.Ingested | app.py:96-104 | The `all_docs` entry for a new file: its name, its sections and one embedding per section. |
| App.Upload | app.py:89-104 | One pass of the upload loop: a known name leaves the documents as they are, otherwise the ingested file is appended. |
| App.UploadAll | app.py:88-105 | The documents after a batch: `Upload` applied file by file. |
| App.Outcomes | app.py:89-105 | One sidebar outcome per file, each judged against the documents loaded before it. |
| App.UploadUnique | app.py:90-93 | One upload keeps document names distinct, since a known name is skipped. |
| App.UploadAllExtends | app.py:100-104 | Uploads only append. Earlier documents keep their place, and a batch adds at most one document per file. |
| App.UploadAllNames | app.py:90-104 | After a batch, the known names are exactly the earlier names plus the names of the batch's files. |
| App.UploadAllUnique | app.py:90-93 | If file names were distinct before a batch, they stay distinct, even when the batch repeats a name. |
| App.UploadAllConsistent | app.py:96-104 | Every document keeps one embedding per section. |
| App.OutcomesSkip | app.py:89-105 | A file is skipped exactly when its name was known before the batch or an earlier file of the batch carries it. Otherwise it is reported with its number of sections. |
| App.Session.constructor | app.py:49-53 | A new session has no documents and no history. |
| App.Session.AddUpload | app.py:89-105 | A known name leaves the documents unchanged and is reported as skipped. Otherwise the new document is appended with its sections and their embeddings. The chat history is unchanged and the invariant is kept. |
| App.Session.ProcessUploads | app.py:88-105 | The loop over a batch produces `UploadAll` and one outcome per file. Skips and section counts follow `OutcomesSkip`. The history is unchanged and the invariant is kept. |
| Retrieval.AllTexts | app.py:147 | One text per section over all documents. |
| Retrieval.AllMeta | app.py:148 | One `(name, header)` per section over all documents. |
| Retrieval.AllEmbeddings | app.py:149 | With one embedding per section, one embedding per section over all documents. |
| Retrieval.FlatText | app.py:147 | Index `Offset(d) + s` of `all_texts` is the text of section `s` of document `d`. |
| Retrieval.FlatMeta | app.py:148 | Index `Offset(d) + s` of `all_meta` is the name of document `d` with the header of its section `s`. |
| Retrieval.FlatEmbedding | app.py:149 | Index `Offset(d) + s` of `all_embeddings` is the embedding of section `s` of document `d`. |
| Retrieval.FlatIndex | app.py:147-149 | The three flattened lists stay aligned: one index names the same section in all of them. |
| Retrieval.Locate | app.py:147-149 | Every flattened index belongs to one document and one of its sections. |
| Retrieval.LocateUnique | app.py:147-149 | No two `(document, section)` pairs share a flattened index: `Locate` finds each section back. |
| Retrieval.OffsetOrder | app.py:147-149 | The flattened order is document by document: all sections of an earlier document come before those of a later one. |
| Retrieval.Similarities | app.py:151 | One score per flattened embedding, its similarity to the query. |
| Ranking.ArgSort | app.py:152 | `sims.argsort()`: the indices sorted by score, equal scores in index order. |
| Ranking.SortIndices | app.py:152 | The insertion sort behind `ArgSort`: the first `n` indices, each inserted after every index whose score is not higher. |
| Ranking.SortIndicesMembers | app.py:152 | `argsort` returns each index `0 .. n-1`, and nothing else. |
| Ranking.SortIndicesDistinct | app.py:152 | `argsort` returns each index once. |
| Ranking.SortIndicesAscending | app.py:152 | `argsort` orders indices by non-decreasing score. |
| Ranking.Highest | app.py:152 | The last `m` entries of `order`, last first: `order[-10:][::-1]` with `m = min(10, n)`. |
| Ranking.HighestDescending | app.py:152 | Taken from an ascending order, the selected indices come by non-increasing score. |
| Ranking.HighestDominates | app.py:152 | Every index left out scores no higher than any selected one. |
| Ranking.TopIndices | app.py:152 | `sims.argsort()[-10:][::-1]` with `ArgSort`'s order of equal scores. |
| Ranking.TopIndicesBest | app.py:152 | `TopIndices` satisfies `TopSelection`: `min(10, n)` distinct valid indices, by non-increasing score, and no index left out scores higher than a selected one. |
| Retrieval.Retrieve | app.py:151-152 | `top_idx` for a query: the top indices of the similarities of all flattened embeddings. |
| Retrieval.RetrievedScore | app.py:151-152 | For any selection satisfying `TopSelection`, the score of a selected index is the similarity of its section's embedding. |
| Retrieval.RetrievedAbove | app.py:151-152 | For any such selection, a selected section scores at least as well as every section not selected. |
| Retrieval.RetrievedOrder | app.py:152 | For any such selection, selected sections come by non-increasing score. |
| Retrieval.RetrievedEntry | app.py:154-157 | For any such selection, context entry `a` is the header line (the 📄 mark, the document's name and the section's header) and the text of the section behind the `a`-th selected index. |
| Retrieval.Entry | app.py:155 | One context entry: `📄 Doc: ` and the name, then a bar, `Section: ` and the header, then a newline and the text. It is never empty. |
| Retrieval.Context | app.py:154-157 | The entries of the selected indices, in selection order, joined by a blank line. |
| Retrieval.ContextEmpty | app.py:154-157 | The context is empty exactly when no index was selected. |
| Retrieval.ContextEntryAt | app.py:154-157 | Entry `a` stands in the context at its join offset. |
| Retrieval.ContextSeparator | app.py:154 | A blank line follows every entry but the last. |
| Retrieval.ContextEnd | app.py:154-157 | The last entry ends the context. |
| Retrieval.SelectedContextNonEmpty | app.py:146-157 | On a corpus with sections, the context built from any selection satisfying `TopSelection` is not empty. |
| App.Prompt | app.py:159-168 | The prompt string: the fixed instructions, `Context:`, the context, `Question: `, the question and a newline. |
| App.PromptParts | app.py:159-168 | The prompt is the fixed instructions, then the context verbatim, then `\n\nQuestion: `, the question verbatim and a final newline. |
| App.AnswerText | app.py:173-181 | The answer recorded: the reply's content, or `⚠️ Error from Azure OpenAI: ` and the error text. |
| App.FailureAnswer | app.py:180-181 | A failed call is recorded as `⚠️ Error from Azure OpenAI: ` followed by the error text, which can be read back. |
| App.Session.Ask | app.py:124-201 | An empty question does nothing. A corpus without sections records only the user turn (`NoCorpus`). Otherwise the context is built from a selection `top` satisfying `TopSelection` over the similarities, and is non-empty. The user turn and then the assistant turn are appended. The assistant turn carries the model's answer to `Prompt(context, question)` or the error text, plus the context. The documents are unchanged and the invariant is kept. |

## Left out

- The Streamlit user interface is not modelled: page layout, spinners, the
  sidebar messages' wording, and the redisplay of `chat_history[:-2]`.
  - The upload outcome (`Skipped`, `Loaded(count)`) stands in for the
    messages.
- Reading files is not modelled.
  - PDF page extraction, DOCX paragraph joining and UTF-8 decoding with
    ignored errors are all outside the model.
  - An `UploadedFile` carries the text its extractor yields.
- The sentence encoder, the cosine similarity and the Azure OpenAI client are
  parameters, not models. The client configuration, the model name and the
  response's `max_tokens` are not modelled either.
  - An exception raised by the encoder itself is not modelled.
  - The per-text function stands in for batch encoding.
- Segmenter.ChunkText: requires `maxTokens > 0`. The source is only ever
  called with its default of 500. A non-positive `max_tokens` makes Python's
  `range` raise or return nothing, and that is not modelled.
- Text.IsUpper: models `str.isupper()` for three ranges only. They are
  ASCII and Latin-1 (U+0000-U+00FF), the Greek and Coptic block
  (U+0370-U+03FF) and basic Cyrillic (U+0400-U+045F). Within them every
  character is classified as Python classifies it. Cased letters outside
  them count as uncased. So a line such as "Aā" (with a lower-case
  a-macron) passes the test, while Python rejects it.
  - Text.IsSpace is exact for all of Unicode.
- Ranking.ArgSort: fixes one order among equal scores, where numpy's default
  `argsort` may give another. `TopIndices` and `Retrieve` are about that
  order. `Session.Ask` and the `Retrieved*` lemmas are stated through
  `TopSelection` and hold for any order.
- App.Session.Ask: requires `Valid()`, the session invariant that every
  document has one embedding per section and no two documents share a name.
  The constructor establishes it and every method keeps it.
  - On a corpus without sections, the exception from the similarity step is
    modelled as the outcome `NoCorpus`. The uncaught error that Streamlit
    would show is not modelled.
- The commented-out earlier version of `extract_sections`, at
  Modules/doc_utils.py:42-70, is dead code and is not modelled.
- Modules/creds.py, the credentials module, is not part of this model.
