/** Retrieval over the session's documents (app.py): the per-section lists
    flattened across documents, the similarity scores, the ten best indices and
    the context string handed to the prompt. */
module Retrieval {
  import opened Text
  import opened Segmenter
  import opened Ranking

  /** One vector produced by the sentence encoder. */
  type Embedding = seq<real>

  /** An entry of `all_docs`: a file name, its sections and one embedding per
      section. */
  datatype Document = Document(name: string, sections: seq<Section>, embeddings: seq<Embedding>)

  /** Each section has its own embedding. */
  predicate Consistent(doc: Document) {
    |doc.sections| == |doc.embeddings|
  }

  predicate AllConsistent(docs: seq<Document>) {
    forall d :: 0 <= d < |docs| ==> Consistent(docs[d])
  }

  /** The number of sections over all documents. */
  function SectionCount(docs: seq<Document>): nat {
    if docs == [] then 0 else |docs[0].sections| + SectionCount(docs[1..])
  }

  /** Where the sections of `docs[d]` begin in the flattened lists. */
  function Offset(docs: seq<Document>, d: nat): nat
    requires d <= |docs|
  {
    if d == 0 then 0 else |docs[0].sections| + Offset(docs[1..], d - 1)
  }

  /** `all_texts`: every section's text, document by document. */
  function AllTexts(docs: seq<Document>): (texts: seq<string>)
    ensures |texts| == SectionCount(docs)
  {
    if docs == [] then []
    else
      var head := seq(|docs[0].sections|, s requires 0 <= s < |docs[0].sections| => docs[0].sections[s].text);
      head + AllTexts(docs[1..])
  }

  /** `all_meta`: `(document name, section header)` for every section. */
  function AllMeta(docs: seq<Document>): (meta: seq<(string, string)>)
    ensures |meta| == SectionCount(docs)
  {
    if docs == [] then []
    else
      var head := seq(|docs[0].sections|, s requires 0 <= s < |docs[0].sections| =>
                        (docs[0].name, docs[0].sections[s].header));
      head + AllMeta(docs[1..])
  }

  /** `all_embeddings`: every document's embeddings, in order. */
  function AllEmbeddings(docs: seq<Document>): (embeddings: seq<Embedding>)
    ensures AllConsistent(docs) ==> |embeddings| == SectionCount(docs)
  {
    if docs == [] then [] else docs[0].embeddings + AllEmbeddings(docs[1..])
  }

  lemma {:induction false} OffsetBound(docs: seq<Document>, d: nat)
    requires d < |docs|
    ensures Offset(docs, d) + |docs[d].sections| <= SectionCount(docs)
    ensures d + 1 < |docs| ==> Offset(docs, d + 1) == Offset(docs, d) + |docs[d].sections|
  {
    if d > 0 {
      OffsetBound(docs[1..], d - 1);
    }
  }

  lemma ConsistentTail(docs: seq<Document>)
    requires docs != [] && AllConsistent(docs)
    ensures Consistent(docs[0]) && AllConsistent(docs[1..])
  {
    assert Consistent(docs[0]);
    forall e | 0 <= e < |docs| - 1
      ensures Consistent(docs[1..][e])
    {
      assert docs[1..][e] == docs[e + 1];
    }
  }

  lemma {:induction false} FlatText(docs: seq<Document>, d: nat, s: nat)
    requires d < |docs| && s < |docs[d].sections|
    ensures Offset(docs, d) + s < SectionCount(docs)
    ensures AllTexts(docs)[Offset(docs, d) + s] == docs[d].sections[s].text
  {
    OffsetBound(docs, d);
    if d > 0 {
      FlatText(docs[1..], d - 1, s);
    }
  }

  lemma {:induction false} FlatMeta(docs: seq<Document>, d: nat, s: nat)
    requires d < |docs| && s < |docs[d].sections|
    ensures Offset(docs, d) + s < SectionCount(docs)
    ensures AllMeta(docs)[Offset(docs, d) + s] == (docs[d].name, docs[d].sections[s].header)
  {
    OffsetBound(docs, d);
    if d > 0 {
      FlatMeta(docs[1..], d - 1, s);
    }
  }

  lemma {:induction false} FlatEmbedding(docs: seq<Document>, d: nat, s: nat)
    requires d < |docs| && s < |docs[d].sections| && AllConsistent(docs)
    ensures Offset(docs, d) + s < |AllEmbeddings(docs)|
    ensures AllEmbeddings(docs)[Offset(docs, d) + s] == docs[d].embeddings[s]
  {
    OffsetBound(docs, d);
    ConsistentTail(docs);
    var head := docs[0].embeddings;
    assert AllEmbeddings(docs) == head + AllEmbeddings(docs[1..]);
    if d > 0 {
      FlatEmbedding(docs[1..], d - 1, s);
      assert Offset(docs, d) == |head| + Offset(docs[1..], d - 1);
    }
  }

  /** Index `Offset(d) + s` of each flattened list refers to section `s` of
      document `d`: its text, its `(name, header)` and its embedding. */
  lemma FlatIndex(docs: seq<Document>, d: nat, s: nat)
    requires d < |docs| && s < |docs[d].sections|
    ensures Offset(docs, d) + s < SectionCount(docs)
    ensures AllTexts(docs)[Offset(docs, d) + s] == docs[d].sections[s].text
    ensures AllMeta(docs)[Offset(docs, d) + s] == (docs[d].name, docs[d].sections[s].header)
    ensures AllConsistent(docs) ==> AllEmbeddings(docs)[Offset(docs, d) + s] == docs[d].embeddings[s]
  {
    FlatText(docs, d, s);
    FlatMeta(docs, d, s);
    if AllConsistent(docs) {
      FlatEmbedding(docs, d, s);
    }
  }

  /** The `(document, section)` pair a flattened index belongs to, found by
      walking the documents in order. */
  function Locate(docs: seq<Document>, i: nat): (loc: (nat, nat))
    requires i < SectionCount(docs)
    ensures loc.0 < |docs| && loc.1 < |docs[loc.0].sections|
    ensures Offset(docs, loc.0) + loc.1 == i
  {
    if i < |docs[0].sections| then (0, i)
    else
      var rest := Locate(docs[1..], i - |docs[0].sections|);
      (rest.0 + 1, rest.1)
  }

  /** No other pair lands on the same index: `Locate` finds every section
      back from its flattened index. */
  lemma {:induction false} LocateUnique(docs: seq<Document>, d: nat, s: nat)
    requires d < |docs| && s < |docs[d].sections|
    ensures Offset(docs, d) + s < SectionCount(docs)
    ensures Locate(docs, Offset(docs, d) + s) == (d, s)
  {
    OffsetBound(docs, d);
    if d > 0 {
      LocateUnique(docs[1..], d - 1, s);
    }
  }

  /** Sections of earlier documents come first: the flattened order is
      document by document, and within a document section by section. */
  lemma {:induction false} OffsetOrder(docs: seq<Document>, d1: nat, d2: nat)
    requires d1 < d2 < |docs|
    ensures Offset(docs, d1) + |docs[d1].sections| <= Offset(docs, d2)
    decreases d2 - d1
  {
    OffsetBound(docs, d1);
    if d1 + 1 < d2 {
      OffsetOrder(docs, d1 + 1, d2);
      OffsetBound(docs, d1 + 1);
    }
  }

  /** `sims`: one score per flattened embedding, given the similarity of an
      embedding to the query. */
  function Similarities(docs: seq<Document>, score: Embedding -> real): (sims: seq<real>)
    ensures |sims| == |AllEmbeddings(docs)|
    ensures forall i :: 0 <= i < |sims| ==> sims[i] == score(AllEmbeddings(docs)[i])
  {
    var embeddings := AllEmbeddings(docs);
    seq(|embeddings|, i requires 0 <= i < |embeddings| => score(embeddings[i]))
  }

  /** The prefix `📄 Doc: `, then the file name, ` | Section: `, the header,
      a newline and the section text. */
  function Entry(meta: (string, string), text: string): (entry: string)
    ensures |entry| > 0
  {
    "\U{1F4C4} Doc: " + meta.0 + " | Section: " + meta.1 + "\n" + text
  }

  /** The entries for the selected indices, in selection order. */
  function Entries(texts: seq<string>, meta: seq<(string, string)>, top: seq<nat>): (entries: seq<string>)
    requires |texts| == |meta| && ValidIndices(top, |texts|)
  {
    seq(|top|, a requires 0 <= a < |top| => Entry(meta[top[a]], texts[top[a]]))
  }

  /** The entries joined by a blank line. */
  function Context(texts: seq<string>, meta: seq<(string, string)>, top: seq<nat>): string
    requires |texts| == |meta| && ValidIndices(top, |texts|)
  {
    Join("\n\n", Entries(texts, meta, top))
  }

  /** The context is empty exactly when nothing was selected: every entry
      holds at least its prefix. */
  lemma ContextEmpty(texts: seq<string>, meta: seq<(string, string)>, top: seq<nat>)
    requires |texts| == |meta| && ValidIndices(top, |texts|)
    ensures Context(texts, meta, top) == [] <==> top == []
  {
    var entries := Entries(texts, meta, top);
    if |entries| >= 2 {
      assert Join("\n\n", entries) == entries[0] + "\n\n" + Join("\n\n", entries[1..]);
    } else if |entries| == 1 {
      assert Join("\n\n", entries) == entries[0];
    }
  }

  /** The indices the query retrieves. */
  function Retrieve(docs: seq<Document>, score: Embedding -> real): seq<nat> {
    TopIndices(Similarities(docs, score))
  }

  /** Whatever order the selection gives equal scores, on a corpus with
      sections the context is not empty. */
  lemma SelectedContextNonEmpty(docs: seq<Document>, score: Embedding -> real, top: seq<nat>)
    requires AllConsistent(docs) && TopSelection(Similarities(docs, score), top)
    requires SectionCount(docs) > 0
    ensures Context(AllTexts(docs), AllMeta(docs), top) != []
  {
    ContextEmpty(AllTexts(docs), AllMeta(docs), top);
  }

  /** The `a`-th entry of the context names the document and section of the
      `a`-th selected index, and holds that section's text. This holds for any
      top-`TopK` selection, `Retrieve` among them. */
  lemma RetrievedEntry(docs: seq<Document>, score: Embedding -> real, top: seq<nat>, a: nat)
    requires AllConsistent(docs) && TopSelection(Similarities(docs, score), top) && a < |top|
    ensures top[a] < SectionCount(docs)
    ensures var loc := Locate(docs, top[a]);
      var section := docs[loc.0].sections[loc.1];
      Entries(AllTexts(docs), AllMeta(docs), top)[a] == Entry((docs[loc.0].name, section.header), section.text)
  {
    var loc := Locate(docs, top[a]);
    FlatText(docs, loc.0, loc.1);
    FlatMeta(docs, loc.0, loc.1);
  }

  /** The score of the `a`-th selected index is that of its section. */
  lemma RetrievedScore(docs: seq<Document>, score: Embedding -> real, top: seq<nat>, a: nat)
    requires AllConsistent(docs) && TopSelection(Similarities(docs, score), top) && a < |top|
    ensures top[a] < SectionCount(docs)
    ensures var loc := Locate(docs, top[a]);
      Similarities(docs, score)[top[a]] == score(docs[loc.0].embeddings[loc.1])
  {
    var loc := Locate(docs, top[a]);
    FlatEmbedding(docs, loc.0, loc.1);
  }

  /** The section of the `a`-th selected index scores at least as well as
      every section not selected. */
  lemma RetrievedAbove(docs: seq<Document>, score: Embedding -> real, top: seq<nat>, a: nat)
    requires AllConsistent(docs) && TopSelection(Similarities(docs, score), top) && a < |top|
    ensures top[a] < SectionCount(docs)
    ensures var loc := Locate(docs, top[a]);
      forall i :: 0 <= i < SectionCount(docs) && i !in top ==>
        score(AllEmbeddings(docs)[i]) <= score(docs[loc.0].embeddings[loc.1])
  {
    RetrievedScore(docs, score, top, a);
  }

  /** Selected sections come by non-increasing score. */
  lemma RetrievedOrder(docs: seq<Document>, score: Embedding -> real, top: seq<nat>, a: nat)
    requires AllConsistent(docs) && TopSelection(Similarities(docs, score), top) && a + 1 < |top|
    ensures top[a] < SectionCount(docs) && top[a + 1] < SectionCount(docs)
    ensures var loc := Locate(docs, top[a]);
      score(AllEmbeddings(docs)[top[a + 1]]) <= score(docs[loc.0].embeddings[loc.1])
  {
    RetrievedScore(docs, score, top, a);
  }

  /** Entry `a` of the context stands at `JoinOffset(a)`. */
  lemma ContextEntryAt(texts: seq<string>, meta: seq<(string, string)>, top: seq<nat>, a: nat)
    requires |texts| == |meta| && ValidIndices(top, |texts|) && a < |top|
    ensures var context := Context(texts, meta, top);
      var at := JoinOffset("\n\n", Entries(texts, meta, top), a);
      var entry := Entry(meta[top[a]], texts[top[a]]);
      at + |entry| <= |context| && context[at..at + |entry|] == entry
  {
    JoinPartAt("\n\n", Entries(texts, meta, top), a);
  }

  /** A blank line follows every entry but the last. */
  lemma ContextSeparator(texts: seq<string>, meta: seq<(string, string)>, top: seq<nat>, a: nat)
    requires |texts| == |meta| && ValidIndices(top, |texts|) && a + 1 < |top|
    ensures var context := Context(texts, meta, top);
      var end := JoinOffset("\n\n", Entries(texts, meta, top), a) + |Entry(meta[top[a]], texts[top[a]])|;
      end + 2 <= |context| && context[end..end + 2] == "\n\n"
  {
    JoinSepAfter("\n\n", Entries(texts, meta, top), a);
  }

  /** The last entry ends the context. */
  lemma ContextEnd(texts: seq<string>, meta: seq<(string, string)>, top: seq<nat>)
    requires |texts| == |meta| && ValidIndices(top, |texts|) && top != []
    ensures var a := |top| - 1;
      JoinOffset("\n\n", Entries(texts, meta, top), a) + |Entry(meta[top[a]], texts[top[a]])|
        == |Context(texts, meta, top)|
  {
    JoinEnd("\n\n", Entries(texts, meta, top));
  }
}
