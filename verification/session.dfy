/** The Streamlit session of app.py: the list of loaded documents (`all_docs`),
    the upload loop that skips already-known file names, and the question path
    that retrieves context, builds the prompt, asks the language model and
    records both turns in `chat_history`. */
module App {
  import opened Text
  import opened Segmenter
  import opened Ranking
  import opened Retrieval

  datatype Option<T> = None | Some(value: T)

  datatype Role = User | Assistant

  /** An entry of `chat_history`. */
  datatype Turn = Turn(role: Role, content: string, context: Option<string>)

  /** What the chat-completion call yields: the message content, or the text of
      the exception it raised. */
  datatype Reply = Answer(text: string) | Failure(message: string)

  /** What the sidebar reports for one uploaded file. */
  datatype UploadOutcome = Skipped | Loaded(sectionCount: nat)

  /** How a question ended: not asked (empty input), stopped by the similarity
      step on a corpus without sections, or answered. */
  datatype AskOutcome = NotAsked | NoCorpus | Answered(answer: string, context: string)

  /** `⚠️ Error from Azure OpenAI: ` */
  const ErrorPrefix: string := "\U{26A0}\U{FE0F} Error from Azure OpenAI: "

  const PromptHead: string :=
    "\nUse the context below to answer the question in a detailed and comprehensive manner. \n"
    + "Summarize the main points related to the question and provide specifics from the documents if available. \n"
    + "If the answer is not found in the documents, state that clearly.\n\nContext:\n"

  const QuestionHead: string := "\n\nQuestion: "

  /** The prompt sent to the model: the fixed instructions, the context, the
      question, and a final newline. */
  function Prompt(context: string, question: string): (prompt: string) {
    PromptHead + context + QuestionHead + question + "\n"
  }

  /** The prompt holds the context and the question verbatim, at fixed
      places: after the instructions, and between `Question: ` and the final
      newline. */
  lemma PromptParts(context: string, question: string)
    ensures var prompt := Prompt(context, question);
      var q := |PromptHead| + |context| + |QuestionHead|;
      && |prompt| == q + |question| + 1
      && prompt[..|PromptHead|] == PromptHead
      && prompt[|PromptHead|..|PromptHead| + |context|] == context
      && prompt[|PromptHead| + |context|..q] == QuestionHead
      && prompt[q..q + |question|] == question
      && prompt[|prompt| - 1] == '\n'
  {
  }

  /** The text shown and recorded as the answer: the model's content, or the
      error message after `ErrorPrefix`. */
  function AnswerText(reply: Reply): string {
    match reply
    case Answer(text) => text
    case Failure(message) => ErrorPrefix + message
  }

  /** A failure is recorded as `ErrorPrefix` followed by its message, so the
      message can be read back from the recorded answer. */
  lemma FailureAnswer(message: string)
    ensures var answer := AnswerText(Failure(message));
      && |answer| == |ErrorPrefix| + |message|
      && answer[..|ErrorPrefix|] == ErrorPrefix
      && answer[|ErrorPrefix|..] == message
  {
  }

  /** `[doc["name"] for doc in all_docs]`. */
  function Names(docs: seq<Document>): (names: seq<string>)
    ensures |names| == |docs|
  {
    seq(|docs|, d requires 0 <= d < |docs| => docs[d].name)
  }

  predicate UniqueNames(docs: seq<Document>) {
    forall d, e :: 0 <= d < e < |docs| ==> docs[d].name != docs[e].name
  }

  /** `embed_model.encode(section_texts)`: one embedding per section, the
      embedding of that section's text. */
  function EmbedSections(sections: seq<Section>, embed: string -> Embedding): (embeddings: seq<Embedding>)
    ensures |embeddings| == |sections|
    ensures forall s :: 0 <= s < |sections| ==> embeddings[s] == embed(sections[s].text)
  {
    seq(|sections|, s requires 0 <= s < |sections| => embed(sections[s].text))
  }

  /** The `all_docs` entry for an accepted file: its name, its sections, and
      their embeddings. */
  function Ingested(file: UploadedFile, embed: string -> Embedding): Document {
    var sections := Segment(ExtractText(file));
    Document(file.name, sections, EmbedSections(sections, embed))
  }

  /** Ingestion with a fixed encoder, as a function of the file. */
  function Ingest(embed: string -> Embedding): UploadedFile -> Document {
    file => Ingested(file, embed)
  }

  /** The upload rules below hold for any ingestion that keeps the file's
      name; the ones about embeddings also need one embedding per section. */
  ghost predicate KeepsName(ingest: UploadedFile -> Document) {
    forall file :: ingest(file).name == file.name
  }

  ghost predicate KeepsConsistent(ingest: UploadedFile -> Document) {
    forall file :: Consistent(ingest(file))
  }

  lemma IngestKeeps(embed: string -> Embedding)
    ensures KeepsName(Ingest(embed)) && KeepsConsistent(Ingest(embed))
  {
    forall file ensures Ingest(embed)(file).name == file.name && Consistent(Ingest(embed)(file)) {
      var doc := Ingested(file, embed);
    }
  }

  /** The documents after one upload: unchanged when the name is known,
      otherwise with the ingested file appended. */
  function Upload(docs: seq<Document>, file: UploadedFile, ingest: UploadedFile -> Document): seq<Document> {
    if file.name in Names(docs) then docs else docs + [ingest(file)]
  }

  /** The sidebar message for one upload against the current documents. */
  function Outcome(docs: seq<Document>, file: UploadedFile, ingest: UploadedFile -> Document): UploadOutcome {
    if file.name in Names(docs) then Skipped else Loaded(|ingest(file).sections|)
  }

  /** The documents after uploading `files` one after another. */
  function UploadAll(docs: seq<Document>, files: seq<UploadedFile>, ingest: UploadedFile -> Document): seq<Document> {
    if files == [] then docs
    else Upload(UploadAll(docs, files[..|files| - 1], ingest), files[|files| - 1], ingest)
  }

  /** Uploads only append: earlier documents keep their place and content,
      and a batch adds at most one document per file. */
  lemma {:induction false} UploadAllExtends(docs: seq<Document>, files: seq<UploadedFile>, ingest: UploadedFile -> Document)
    ensures |docs| <= |UploadAll(docs, files, ingest)| <= |docs| + |files|
    ensures UploadAll(docs, files, ingest)[..|docs|] == docs
  {
    if files != [] {
      var before := UploadAll(docs, files[..|files| - 1], ingest);
      UploadAllExtends(docs, files[..|files| - 1], ingest);
      assert (before + [ingest(files[|files| - 1])])[..|docs|] == before[..|docs|];
    }
  }

  /** One upload adds its file's name to the known names and no other. */
  lemma UploadNames(docs: seq<Document>, file: UploadedFile, ingest: UploadedFile -> Document)
    requires KeepsName(ingest)
    ensures forall x :: x in Names(Upload(docs, file, ingest)) <==> x in Names(docs) || x == file.name
  {
    if file.name !in Names(docs) {
      assert Names(docs + [ingest(file)]) == Names(docs) + [file.name];
    }
  }

  /** After a batch, the known names are exactly the earlier names and the
      names of the batch's files. */
  lemma {:induction false} UploadAllNames(docs: seq<Document>, files: seq<UploadedFile>, ingest: UploadedFile -> Document)
    requires KeepsName(ingest)
    ensures forall x :: x in Names(UploadAll(docs, files, ingest)) <==>
      x in Names(docs) || exists j :: 0 <= j < |files| && files[j].name == x
  {
    if files != [] {
      var init := files[..|files| - 1];
      var last := files[|files| - 1];
      UploadAllNames(docs, init, ingest);
      UploadNames(UploadAll(docs, init, ingest), last, ingest);
      forall x
        ensures x in Names(UploadAll(docs, files, ingest)) <==>
          x in Names(docs) || exists j :: 0 <= j < |files| && files[j].name == x
      {
        if exists j :: 0 <= j < |files| && files[j].name == x {
          var j :| 0 <= j < |files| && files[j].name == x;
          if j < |init| {
            assert init[j].name == x;
          }
        }
        if exists j :: 0 <= j < |init| && init[j].name == x {
          var j :| 0 <= j < |init| && init[j].name == x;
          assert files[j].name == x;
        }
      }
    }
  }

  /** One upload keeps the names distinct: a known name is skipped. */
  lemma UploadUnique(docs: seq<Document>, file: UploadedFile, ingest: UploadedFile -> Document)
    requires KeepsName(ingest) && UniqueNames(docs)
    ensures UniqueNames(Upload(docs, file, ingest))
  {
    if file.name !in Names(docs) {
      var after := docs + [ingest(file)];
      forall d, e | 0 <= d < e < |after|
        ensures after[d].name != after[e].name
      {
        if e == |docs| {
          assert after[d].name == Names(docs)[d];
        } else {
          assert after[d] == docs[d] && after[e] == docs[e];
        }
      }
    }
  }

  /** Distinct names stay distinct, whatever the batch holds, repeats
      included. */
  lemma {:induction false} UploadAllUnique(docs: seq<Document>, files: seq<UploadedFile>, ingest: UploadedFile -> Document)
    requires KeepsName(ingest) && UniqueNames(docs)
    ensures UniqueNames(UploadAll(docs, files, ingest))
  {
    if files != [] {
      UploadAllUnique(docs, files[..|files| - 1], ingest);
      UploadUnique(UploadAll(docs, files[..|files| - 1], ingest), files[|files| - 1], ingest);
    }
  }

  /** Every loaded document has one embedding per section. */
  lemma {:induction false} UploadAllConsistent(docs: seq<Document>, files: seq<UploadedFile>, ingest: UploadedFile -> Document)
    requires KeepsConsistent(ingest) && AllConsistent(docs)
    ensures AllConsistent(UploadAll(docs, files, ingest))
  {
    if files != [] {
      var before := UploadAll(docs, files[..|files| - 1], ingest);
      var last := files[|files| - 1];
      UploadAllConsistent(docs, files[..|files| - 1], ingest);
      if last.name !in Names(before) {
        var after := before + [ingest(last)];
        forall d | 0 <= d < |after| ensures Consistent(after[d]) {
          if d < |before| {
            assert after[d] == before[d];
          }
        }
      }
    }
  }

  /** The sidebar messages of a batch, file by file. */
  function Outcomes(docs: seq<Document>, files: seq<UploadedFile>, ingest: UploadedFile -> Document): (outcomes: seq<UploadOutcome>)
    ensures |outcomes| == |files|
  {
    if files == [] then []
    else
      var init := files[..|files| - 1];
      Outcomes(docs, init, ingest) + [Outcome(UploadAll(docs, init, ingest), files[|files| - 1], ingest)]
  }

  /** A file of a batch is skipped exactly when its name was known before the
      batch or an earlier file of the batch carries it; otherwise the message
      gives the number of its sections. */
  lemma {:induction false} OutcomesSkip(docs: seq<Document>, files: seq<UploadedFile>, ingest: UploadedFile -> Document)
    requires KeepsName(ingest)
    ensures var outcomes := Outcomes(docs, files, ingest);
      forall k :: 0 <= k < |files| ==>
        && (outcomes[k] == Skipped <==>
              files[k].name in Names(docs) || exists j :: 0 <= j < k && files[j].name == files[k].name)
        && (outcomes[k] != Skipped ==> outcomes[k] == Loaded(|ingest(files[k]).sections|))
  {
    if files != [] {
      var n := |files|;
      var init := files[..n - 1];
      var outcomes := Outcomes(docs, files, ingest);
      OutcomesSkip(docs, init, ingest);
      forall k | 0 <= k < n
        ensures outcomes[k] == Skipped <==>
          files[k].name in Names(docs) || exists j :: 0 <= j < k && files[j].name == files[k].name
        ensures outcomes[k] != Skipped ==> outcomes[k] == Loaded(|ingest(files[k]).sections|)
      {
        if k < n - 1 {
          assert outcomes[k] == Outcomes(docs, init, ingest)[k];
          assert init[k] == files[k];
          if exists j :: 0 <= j < k && files[j].name == files[k].name {
            var j :| 0 <= j < k && files[j].name == files[k].name;
            assert init[j] == files[j];
          }
        } else {
          LastOutcome(docs, files, ingest);
        }
      }
    }
  }

  lemma LastOutcome(docs: seq<Document>, files: seq<UploadedFile>, ingest: UploadedFile -> Document)
    requires KeepsName(ingest) && files != []
    ensures var k := |files| - 1;
      var outcome := Outcomes(docs, files, ingest)[k];
      && (outcome == Skipped <==>
            files[k].name in Names(docs) || exists j :: 0 <= j < k && files[j].name == files[k].name)
      && (outcome != Skipped ==> outcome == Loaded(|ingest(files[k]).sections|))
  {
    var k := |files| - 1;
    var init := files[..k];
    UploadAllNames(docs, init, ingest);
    if exists j :: 0 <= j < k && files[j].name == files[k].name {
      var j :| 0 <= j < k && files[j].name == files[k].name;
      assert init[j] == files[j];
    }
    if exists j :: 0 <= j < |init| && init[j].name == files[k].name {
      var j :| 0 <= j < |init| && init[j].name == files[k].name;
      assert files[j] == init[j];
    }
  }

  class Session {
    /** `st.session_state.all_docs` */
    var allDocs: seq<Document>
    /** `st.session_state.chat_history` */
    var chatHistory: seq<Turn>

    /** Every document has one embedding per section, and no two documents
        share a name. */
    ghost predicate Valid()
      reads this
    {
      AllConsistent(allDocs) && UniqueNames(allDocs)
    }

    /** A fresh session: no documents, no history. */
    constructor ()
      ensures Valid()
      ensures allDocs == [] && chatHistory == []
    {
      allDocs := [];
      chatHistory := [];
    }

    /** One pass of the upload loop: skip a known name, otherwise extract the
        sections, embed their texts and append the document. */
    method AddUpload(file: UploadedFile, embed: string -> Embedding) returns (outcome: UploadOutcome)
      modifies this
      ensures allDocs == Upload(old(allDocs), file, Ingest(embed))
      ensures outcome == Outcome(old(allDocs), file, Ingest(embed))
      ensures chatHistory == old(chatHistory)
      ensures old(Valid()) ==> Valid()
    {
      var existing := Names(allDocs);
      if file.name in existing {
        return Skipped;
      }
      ghost var docs := allDocs;
      var sections := ExtractSections(file);
      var embeddings := EmbedSections(sections, embed);
      allDocs := allDocs + [Document(file.name, sections, embeddings)];
      outcome := Loaded(|sections|);
      IngestKeeps(embed);
      if UniqueNames(docs) {
        UploadUnique(docs, file, Ingest(embed));
      }
    }

    /** The upload loop over one batch of files. */
    method ProcessUploads(files: seq<UploadedFile>, embed: string -> Embedding) returns (outcomes: seq<UploadOutcome>)
      modifies this
      ensures allDocs == UploadAll(old(allDocs), files, Ingest(embed))
      ensures |outcomes| == |files|
      ensures forall k :: 0 <= k < |files| ==>
        (outcomes[k] == Skipped <==>
          files[k].name in Names(old(allDocs)) || exists j :: 0 <= j < k && files[j].name == files[k].name)
      ensures forall k :: 0 <= k < |files| && outcomes[k] != Skipped ==>
        outcomes[k] == Loaded(|Segment(ExtractText(files[k]))|)
      ensures chatHistory == old(chatHistory)
      ensures old(Valid()) ==> Valid()
    {
      outcomes := [];
      ghost var docs := allDocs;
      IngestKeeps(embed);
      for i := 0 to |files|
        invariant allDocs == UploadAll(docs, files[..i], Ingest(embed))
        invariant outcomes == Outcomes(docs, files[..i], Ingest(embed))
        invariant chatHistory == old(chatHistory)
      {
        assert files[..i + 1][..i] == files[..i];
        var outcome := AddUpload(files[i], embed);
        outcomes := outcomes + [outcome];
      }
      assert files[..|files|] == files;
      OutcomesSkip(docs, files, Ingest(embed));
      forall k | 0 <= k < |files| && outcomes[k] != Skipped
        ensures outcomes[k] == Loaded(|Segment(ExtractText(files[k]))|)
      {
        assert Ingest(embed)(files[k]) == Ingested(files[k], embed);
      }
      if AllConsistent(docs) {
        UploadAllConsistent(docs, files, Ingest(embed));
      }
      if UniqueNames(docs) {
        UploadAllUnique(docs, files, Ingest(embed));
      }
    }

    /** One question: record the user turn; on a corpus with sections,
        retrieve the context, build the prompt, ask the model, and record the
        answer (or the error text) with the context. The contract admits any
        top-`TopK` selection `top`, so it does not depend on how equal scores
        are ordered. */
    method Ask(question: string, embed: string -> Embedding, similarity: (Embedding, Embedding) -> real,
               generate: string -> Reply)
      returns (outcome: AskOutcome, ghost top: seq<nat>)
      requires Valid()
      modifies this
      ensures allDocs == old(allDocs) && Valid()
      ensures question == [] ==> outcome == NotAsked && chatHistory == old(chatHistory)
      ensures question != [] && SectionCount(allDocs) == 0 ==>
        outcome == NoCorpus && chatHistory == old(chatHistory) + [Turn(User, question, None)]
      ensures question != [] && SectionCount(allDocs) > 0 ==>
        var sims := Similarities(allDocs, e => similarity(embed(question), e));
        && TopSelection(sims, top)
        && var context := Context(AllTexts(allDocs), AllMeta(allDocs), top);
           var answer := AnswerText(generate(Prompt(context, question)));
           && context != []
           && outcome == Answered(answer, context)
           && chatHistory == old(chatHistory) + [Turn(User, question, None), Turn(Assistant, answer, Some(context))]
    {
      top := [];
      if question == [] {
        return NotAsked, top;
      }
      chatHistory := chatHistory + [Turn(User, question, None)];
      if SectionCount(allDocs) == 0 {
        return NoCorpus, top;
      }
      var query := embed(question);
      var score := e => similarity(query, e);
      var selected := Retrieve(allDocs, score);
      TopIndicesBest(Similarities(allDocs, score));
      SelectedContextNonEmpty(allDocs, score, selected);
      top := selected;
      var context := Context(AllTexts(allDocs), AllMeta(allDocs), selected);
      var prompt := Prompt(context, question);
      var answer := AnswerText(generate(prompt));
      chatHistory := chatHistory + [Turn(Assistant, answer, Some(context))];
      outcome := Answered(answer, context);
    }
  }
}
