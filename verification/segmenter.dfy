/** The segmenter of `Modules/doc_utils.py`: the MIME-type dispatch of
    `extract_text`, `chunk_text` (fixed-size word windows) and
    `extract_sections` (heading detection, section buffering, chunking). */
module Segmenter {
  import opened Text

  /** `chunk_text`'s default window, the one `extract_sections` uses. */
  const MaxTokens: nat := 500

  /** The header of body lines that come before any heading. */
  const DefaultHeader: string := "Introduction"

  const PdfType: string := "application/pdf"
  const DocxType: string := "application/vnd.openxmlformats-officedocument.wordprocessingml.document"
  const PlainTextType: string := "text/plain"

  /** An uploaded file: its name, its MIME type, and the text the matching
      extractor yields for it (the PDF pages concatenated, the DOCX paragraphs
      joined by "\n", or the UTF-8 decoding of a plain-text file). */
  datatype UploadedFile = UploadedFile(name: string, mimeType: string, text: string)

  /** One entry of `extract_sections`' result: `{"header": ..., "text": ...}`. */
  datatype Section = Section(header: string, text: string)

  /** A run of body lines together with the heading that opened it. */
  datatype Block = Block(header: string, body: seq<string>)

  predicate IsSupportedType(mimeType: string) {
    mimeType == PdfType || mimeType == DocxType || mimeType == PlainTextType
  }

  /** `extract_text`: a supported kind yields its extracted text, any other
      MIME type the empty string. */
  function ExtractText(file: UploadedFile): (text: string)
    ensures IsSupportedType(file.mimeType) ==> text == file.text
    ensures !IsSupportedType(file.mimeType) ==> text == ""
  {
    if file.mimeType == PdfType then file.text
    else if file.mimeType == DocxType then file.text
    else if file.mimeType == PlainTextType then file.text
    else ""
  }

  // ---------------------------------------------------------------------------
  // chunk_text

  /** The consecutive, non-overlapping windows of at most `n` words that
      `chunk_text` cuts `words` into. */
  function ChunkWords(words: seq<string>, n: nat): (pieces: seq<seq<string>>)
    requires n > 0
    decreases |words|
  {
    if words == [] then []
    else if |words| <= n then [words]
    else [words[..n]] + ChunkWords(words[n..], n)
  }

  /** Every window holds between 1 and `n` words, every window but the last
      exactly `n`, and the windows laid end to end give back the words. */
  lemma {:induction false} ChunkShape(words: seq<string>, n: nat)
    requires n > 0
    ensures var pieces := ChunkWords(words, n);
      && (forall k :: 0 <= k < |pieces| ==> 0 < |pieces[k]| <= n)
      && (forall k :: 0 <= k < |pieces| - 1 ==> |pieces[k]| == n)
      && Flatten(pieces) == words
    decreases |words|
  {
    if words == [] {
    } else if |words| <= n {
      assert Flatten([words]) == words + Flatten([]);
    } else {
      var rest := ChunkWords(words[n..], n);
      ChunkShape(words[n..], n);
      var pieces := [words[..n]] + rest;
      assert ChunkWords(words, n) == pieces;
      assert pieces[1..] == rest;
      assert words == words[..n] + words[n..];
      assert Flatten(pieces) == words[..n] + Flatten(rest);
      forall k | 0 < k < |pieces|
        ensures pieces[k] == rest[k - 1]
      {
      }
    }
  }

  /** Each window rendered as `" ".join(window)`. */
  function JoinPieces(pieces: seq<seq<string>>): (chunks: seq<string>)
    ensures |chunks| == |pieces|
  {
    if pieces == [] then [] else [Join(" ", pieces[0])] + JoinPieces(pieces[1..])
  }

  /** What `chunk_text(text, n)` returns. */
  function Chunks(text: string, n: nat): seq<string>
    requires n > 0
  {
    JoinPieces(ChunkWords(Split(text), n))
  }

  lemma DivStep(a: nat, n: nat)
    requires n > 0
    ensures (a + n) / n == a / n + 1
  {
    var q, r := a / n, a % n;
    var q', r' := (a + n) / n, (a + n) % n;
    assert n * (q' - q - 1) == r - r';
    if q' - q - 1 > 0 {
      MulAtLeast(n, q' - q - 1);
    } else if q' - q - 1 < 0 {
      MulAtLeast(n, q + 1 - q');
    }
  }

  lemma MulAtLeast(n: nat, m: int)
    requires m > 0
    ensures n * m >= n
  {
  }

  lemma CeilZero(a: nat, n: nat)
    requires a == 0 < n
    ensures (a + n - 1) / n == 0
  {
  }

  lemma CeilOne(a: nat, n: nat)
    requires 0 < a <= n
    ensures (a + n - 1) / n == 1
  {
    DivStep(a - 1, n);
    assert (a - 1) / n == 0;
  }

  lemma CeilStep(a: nat, b: nat, n: nat)
    requires 0 < n && 0 < b && a == b + n
    ensures (a + n - 1) / n == (b + n - 1) / n + 1
  {
    DivStep(b + n - 1, n);
  }

  /** `chunk_text` yields `ceil(len(words) / n)` windows. */
  lemma {:induction false} ChunkCount(words: seq<string>, n: nat)
    requires n > 0
    ensures |ChunkWords(words, n)| == (|words| + n - 1) / n
    decreases |words|
  {
    if words == [] {
      CeilZero(|words|, n);
    } else if |words| <= n {
      CeilOne(|words|, n);
    } else {
      ChunkCount(words[n..], n);
      CeilStep(|words|, |words[n..]|, n);
    }
  }

  /** Rendering windows of words and splitting them again gives back the
      windows, and all the words in order. */
  lemma {:induction false} SplitJoinPieces(pieces: seq<seq<string>>)
    requires forall k, j :: 0 <= k < |pieces| && 0 <= j < |pieces[k]| ==> IsWord(pieces[k][j])
    ensures forall k :: 0 <= k < |pieces| ==> Split(JoinPieces(pieces)[k]) == pieces[k]
    ensures SplitAll(JoinPieces(pieces)) == Flatten(pieces)
  {
    if pieces != [] {
      SplitJoinWords(pieces[0]);
      SplitJoinPieces(pieces[1..]);
      var chunks := JoinPieces(pieces);
      assert chunks[1..] == JoinPieces(pieces[1..]);
      forall k | 0 < k < |pieces|
        ensures Split(chunks[k]) == pieces[k]
      {
        assert chunks[k] == JoinPieces(pieces[1..])[k - 1];
      }
    }
  }

  /** The promises of `chunk_text`: every chunk holds between 1 and `n` words,
      every chunk but the last exactly `n`; there are `ceil(len(words) / n)`
      chunks; concatenating their words gives `text.split()`; and each chunk is
      its words joined by single spaces. */
  lemma ChunksProperties(text: string, n: nat)
    requires n > 0
    ensures var chunks := Chunks(text, n);
      && |chunks| == (|Split(text)| + n - 1) / n
      && (forall k :: 0 <= k < |chunks| ==> 0 < |Split(chunks[k])| <= n)
      && (forall k :: 0 <= k < |chunks| - 1 ==> |Split(chunks[k])| == n)
      && (forall k :: 0 <= k < |chunks| ==> chunks[k] == Join(" ", Split(chunks[k])))
      && SplitAll(chunks) == Split(text)
  {
    var words := Split(text);
    var pieces := ChunkWords(words, n);
    SplitWords(text);
    ChunkShape(words, n);
    ChunkCount(words, n);
    forall k, j | 0 <= k < |pieces| && 0 <= j < |pieces[k]|
      ensures IsWord(pieces[k][j])
    {
      PieceWord(words, n, k, j);
    }
    SplitJoinPieces(pieces);
    var chunks := JoinPieces(pieces);
    forall k | 0 <= k < |chunks|
      ensures chunks[k] == Join(" ", Split(chunks[k]))
    {
      JoinPiecesAt(pieces, k);
    }
  }

  lemma {:induction false} JoinPiecesAt(pieces: seq<seq<string>>, k: nat)
    requires k < |pieces|
    ensures JoinPieces(pieces)[k] == Join(" ", pieces[k])
  {
    if k > 0 {
      JoinPiecesAt(pieces[1..], k - 1);
    }
  }

  /** Every word of a window is one of the words cut up. */
  lemma {:induction false} PieceWord(words: seq<string>, n: nat, k: nat, j: nat)
    requires n > 0
    requires forall i :: 0 <= i < |words| ==> IsWord(words[i])
    requires k < |ChunkWords(words, n)| && j < |ChunkWords(words, n)[k]|
    ensures IsWord(ChunkWords(words, n)[k][j])
    decreases |words|
  {
    if |words| > n && k > 0 {
      PieceWord(words[n..], n, k - 1, j);
    }
  }

  /** `chunk_text(text, max_tokens)`: the words of `text`, cut into
      consecutive windows of `max_tokens` words, each joined by single spaces. */
  method ChunkText(text: string, maxTokens: nat) returns (chunks: seq<string>)
    requires maxTokens > 0
    ensures chunks == Chunks(text, maxTokens)
    ensures |chunks| == (|Split(text)| + maxTokens - 1) / maxTokens
    ensures forall k :: 0 <= k < |chunks| ==> 0 < |Split(chunks[k])| <= maxTokens
    ensures forall k :: 0 <= k < |chunks| - 1 ==> |Split(chunks[k])| == maxTokens
    ensures SplitAll(chunks) == Split(text)
  {
    var words := Split(text);
    chunks := [];
    var i := 0;
    while i < |words|
      invariant 0 <= i
      invariant chunks + JoinPieces(ChunkWords(Drop(words, i), maxTokens))
             == JoinPieces(ChunkWords(words, maxTokens))
      decreases |words| - i
    {
      var end := if i + maxTokens < |words| then i + maxTokens else |words|;
      var chunk := Join(" ", words[i..end]);
      ChunkStep(words, i, maxTokens, chunks);
      chunks := chunks + [chunk];
      i := i + maxTokens;
    }
    assert Drop(words, 0) == words;
    ChunksProperties(text, maxTokens);
  }

  /** `words[i:]`, empty once `i` is past the end. */
  function Drop(words: seq<string>, i: nat): seq<string> {
    if i < |words| then words[i..] else []
  }

  /** One iteration of `chunk_text`'s loop takes the first window of what is left. */
  lemma ChunkStep(words: seq<string>, i: nat, n: nat, done: seq<string>)
    requires n > 0 && i < |words|
    ensures var end := if i + n < |words| then i + n else |words|;
      done + JoinPieces(ChunkWords(Drop(words, i), n))
        == (done + [Join(" ", words[i..end])]) + JoinPieces(ChunkWords(Drop(words, i + n), n))
  {
    var end := if i + n < |words| then i + n else |words|;
    var rest := words[i..];
    if |rest| > n {
      assert rest[..n] == words[i..i + n];
      assert rest[n..] == words[i + n..];
    } else {
      assert rest == words[i..|words|];
    }
    assert JoinPieces(ChunkWords(Drop(words, i), n))
        == [Join(" ", words[i..end])] + JoinPieces(ChunkWords(Drop(words, i + n), n));
    ConcatAssoc(done, [Join(" ", words[i..end])], JoinPieces(ChunkWords(Drop(words, i + n), n)));
  }

  // ---------------------------------------------------------------------------
  // extract_sections

  /** `extract_sections`' heading test on a stripped line: `isupper()` or a
      trailing colon. */
  predicate IsHeading(line: string) {
    IsUpper(line) || EndsWithColon(line)
  }

  /** The blocks of `lines`: a first block headed "Introduction", then one
      block per heading line, each holding the stripped non-blank body lines
      that follow it up to the next heading. */
  function Blocks(lines: seq<string>): (blocks: seq<Block>)
    ensures |blocks| >= 1
    ensures blocks[0].header == DefaultHeader
    decreases |lines|
  {
    if lines == [] then [Block(DefaultHeader, [])]
    else
      var blocks := Blocks(lines[..|lines| - 1]);
      var last := blocks[|blocks| - 1];
      var line := Strip(lines[|lines| - 1]);
      if IsHeading(line) then blocks + [Block(line, [])]
      else if line == [] then blocks
      else blocks[..|blocks| - 1] + [Block(last.header, last.body + [line])]
  }

  /** Every block after the first is opened by a heading line. */
  lemma {:induction false} BlocksHeaders(lines: seq<string>)
    ensures forall k :: 0 < k < |Blocks(lines)| ==> IsHeading(Blocks(lines)[k].header)
    decreases |lines|
  {
    if lines != [] {
      var before := lines[..|lines| - 1];
      BlocksHeaders(before);
      var blocks := Blocks(before);
      var line := Strip(lines[|lines| - 1]);
      var last := blocks[|blocks| - 1];
      if IsHeading(line) {
        assert Blocks(lines) == blocks + [Block(line, [])];
      } else if line != [] {
        assert Blocks(lines) == blocks[..|blocks| - 1] + [Block(last.header, last.body + [line])];
      }
    }
  }

  /** The sections one block yields: its body joined by "\n", chunked, each
      chunk under the block's header. A block without body yields none. */
  function BlockSections(block: Block): seq<Section> {
    var chunks := Chunks(Join("\n", block.body), MaxTokens);
    seq(|chunks|, k requires 0 <= k < |chunks| => Section(block.header, chunks[k]))
  }

  function SectionsOf(blocks: seq<Block>): seq<Section> {
    if blocks == [] then [] else BlockSections(blocks[0]) + SectionsOf(blocks[1..])
  }

  /** What `extract_sections` returns for the extracted text `text`. */
  function Segment(text: string): seq<Section> {
    SectionsOf(Blocks(SplitLines(text)))
  }

  lemma {:induction false} SectionsOfAppend(a: seq<Block>, b: seq<Block>)
    ensures SectionsOf(a + b) == SectionsOf(a) + SectionsOf(b)
  {
    if a == [] {
      assert a + b == b;
    } else {
      assert (a + b)[1..] == a[1..] + b;
      SectionsOfAppend(a[1..], b);
    }
  }

  /** Closes a section: appends the chunks of `body` under `header`. */
  method CloseSection(sections: seq<Section>, header: string, body: seq<string>) returns (result: seq<Section>)
    ensures result == sections + BlockSections(Block(header, body))
  {
    var sectionText := Join("\n", body);
    var chunks := ChunkText(sectionText, MaxTokens);
    result := sections;
    for j := 0 to |chunks|
      invariant result == sections + BlockSections(Block(header, body))[..j]
    {
      result := result + [Section(header, chunks[j])];
    }
  }

  /** The block still open after some lines: the last one. */
  function Open(blocks: seq<Block>): Block
    requires blocks != []
  {
    blocks[|blocks| - 1]
  }

  /** The blocks already closed: all but the last. */
  function Closed(blocks: seq<Block>): seq<Block>
    requires blocks != []
  {
    blocks[..|blocks| - 1]
  }

  /** A heading line closes the open block and opens a new, empty one. */
  lemma BlocksHeading(lines: seq<string>, i: nat)
    requires i < |lines| && IsHeading(Strip(lines[i]))
    ensures var before, after := Blocks(lines[..i]), Blocks(lines[..i + 1]);
      && Open(after) == Block(Strip(lines[i]), [])
      && SectionsOf(Closed(after)) == SectionsOf(Closed(before)) + BlockSections(Open(before))
  {
    assert lines[..i + 1][..i] == lines[..i];
    var before := Blocks(lines[..i]);
    assert Closed(Blocks(lines[..i + 1])) == before;
    SectionsOfLast(before);
  }

  /** A non-blank body line is added to the open block. */
  lemma BlocksBody(lines: seq<string>, i: nat)
    requires i < |lines| && !IsHeading(Strip(lines[i])) && Strip(lines[i]) != []
    ensures var before, after := Blocks(lines[..i]), Blocks(lines[..i + 1]);
      && Open(after) == Block(Open(before).header, Open(before).body + [Strip(lines[i])])
      && Closed(after) == Closed(before)
  {
    assert lines[..i + 1][..i] == lines[..i];
    var before := Blocks(lines[..i]);
    var grown := Block(Open(before).header, Open(before).body + [Strip(lines[i])]);
    assert Blocks(lines[..i + 1]) == Closed(before) + [grown];
    assert (Closed(before) + [grown])[..|Closed(before)|] == Closed(before);
  }

  /** A blank line changes nothing. */
  lemma BlocksBlank(lines: seq<string>, i: nat)
    requires i < |lines| && Strip(lines[i]) == []
    ensures Blocks(lines[..i + 1]) == Blocks(lines[..i])
  {
    assert lines[..i + 1][..i] == lines[..i];
  }

  /** The sections of all blocks: those of the closed blocks, then those of the
      last one. */
  lemma SectionsOfLast(blocks: seq<Block>)
    requires blocks != []
    ensures SectionsOf(blocks) == SectionsOf(blocks[..|blocks| - 1]) + BlockSections(blocks[|blocks| - 1])
  {
    var init, last := blocks[..|blocks| - 1], blocks[|blocks| - 1];
    assert init + [last] == blocks;
    SectionsOfAppend(init, [last]);
    SectionsOfSingle(last);
  }

  lemma SectionsOfSingle(block: Block)
    ensures SectionsOf([block]) == BlockSections(block)
  {
    assert [block][1..] == [];
    assert BlockSections(block) + [] == BlockSections(block);
  }

  /** A block without body lines yields no section. */
  lemma EmptyBlockSections(header: string)
    ensures BlockSections(Block(header, [])) == []
  {
    assert Split(Join("\n", [])) == [];
  }

  /** `extract_sections(file)`. */
  method ExtractSections(file: UploadedFile) returns (sections: seq<Section>)
    ensures sections == Segment(ExtractText(file))
  {
    var fullText := ExtractText(file);
    var lines := SplitLines(fullText);
    sections := [];
    var currentHeader := DefaultHeader;
    var currentText: seq<string> := [];
    for i := 0 to |lines|
      invariant Open(Blocks(lines[..i])) == Block(currentHeader, currentText)
      invariant sections == SectionsOf(Closed(Blocks(lines[..i])))
    {
      var lineStrip := Strip(lines[i]);
      if IsHeading(lineStrip) {
        BlocksHeading(lines, i);
        if currentText != [] {
          sections := CloseSection(sections, currentHeader, currentText);
          currentText := [];
        } else {
          EmptyBlockSections(currentHeader);
        }
        currentHeader := lineStrip;
      } else if lineStrip != [] {
        BlocksBody(lines, i);
        currentText := currentText + [lineStrip];
      } else {
        BlocksBlank(lines, i);
      }
    }
    assert lines[..|lines|] == lines;
    SectionsOfLast(Blocks(lines));
    if currentText != [] {
      sections := CloseSection(sections, currentHeader, currentText);
    } else {
      EmptyBlockSections(currentHeader);
    }
  }

  // ---------------------------------------------------------------------------
  // What extract_sections promises

  /** Each word of each section, in order, paired with the section's header. */
  function TaggedWords(sections: seq<Section>): seq<(string, string)> {
    if sections == [] then []
    else Tag(sections[0].header, Split(sections[0].text)) + TaggedWords(sections[1..])
  }

  function Tag(header: string, words: seq<string>): (tagged: seq<(string, string)>)
    ensures |tagged| == |words|
  {
    seq(|words|, k requires 0 <= k < |words| => (header, words[k]))
  }

  /** The header in force after `lines`: the most recent heading line
      (stripped), or "Introduction" when no heading has been seen. */
  function HeaderAfter(lines: seq<string>): string {
    if lines == [] then DefaultHeader
    else if IsHeading(Strip(lines[|lines| - 1])) then Strip(lines[|lines| - 1])
    else HeaderAfter(lines[..|lines| - 1])
  }

  /** Line by line: every word of every line that is not a heading, paired
      with the header in force at that line. Heading lines contribute nothing,
      and neither do blank lines, which have no words. */
  function ExpectedWords(lines: seq<string>): seq<(string, string)> {
    if lines == [] then []
    else
      var before := lines[..|lines| - 1];
      var line := lines[|lines| - 1];
      ExpectedWords(before) + (if IsHeading(Strip(line)) then [] else Tag(HeaderAfter(before), Split(line)))
  }

  /** A section as `extract_sections` emits it: between 1 and `MaxTokens`
      words, joined by single spaces, under "Introduction" or a heading line. */
  predicate WellFormedSection(section: Section) {
    && 0 < |Split(section.text)| <= MaxTokens
    && section.text == Join(" ", Split(section.text))
    && (section.header == DefaultHeader || IsHeading(section.header))
  }

  lemma TagAppend(header: string, a: seq<string>, b: seq<string>)
    ensures Tag(header, a + b) == Tag(header, a) + Tag(header, b)
  {
    assert forall k :: 0 <= k < |a| + |b| ==> Tag(header, a + b)[k] == (Tag(header, a) + Tag(header, b))[k];
  }

  lemma {:induction false} TaggedWordsAppend(a: seq<Section>, b: seq<Section>)
    ensures TaggedWords(a + b) == TaggedWords(a) + TaggedWords(b)
  {
    if a == [] {
      assert a + b == b;
    } else {
      assert (a + b)[1..] == a[1..] + b;
      TaggedWordsAppend(a[1..], b);
    }
  }

  /** The tagged words of sections that share one header. */
  lemma {:induction false} TaggedWordsHeaded(header: string, chunks: seq<string>)
    ensures TaggedWords(seq(|chunks|, k requires 0 <= k < |chunks| => Section(header, chunks[k])))
         == Tag(header, SplitAll(chunks))
  {
    var sections := seq(|chunks|, k requires 0 <= k < |chunks| => Section(header, chunks[k]));
    if chunks != [] {
      TaggedWordsHeaded(header, chunks[1..]);
      assert sections[1..] == seq(|chunks[1..]|, k requires 0 <= k < |chunks[1..]| => Section(header, chunks[1..][k]));
      TagAppend(header, Split(chunks[0]), SplitAll(chunks[1..]));
    }
  }

  /** The words of one block's sections are the words of its body lines. */
  lemma BlockSectionsWords(block: Block)
    ensures TaggedWords(BlockSections(block)) == Tag(block.header, SplitAll(block.body))
  {
    var text := Join("\n", block.body);
    ChunksProperties(text, MaxTokens);
    TaggedWordsHeaded(block.header, Chunks(text, MaxTokens));
    SplitJoin('\n', block.body);
  }

  /** The words of the blocks' body lines, each with its block's header. */
  function BlockWords(blocks: seq<Block>): seq<(string, string)> {
    if blocks == [] then [] else Tag(blocks[0].header, SplitAll(blocks[0].body)) + BlockWords(blocks[1..])
  }

  lemma {:induction false} BlockWordsAppend(a: seq<Block>, b: seq<Block>)
    ensures BlockWords(a + b) == BlockWords(a) + BlockWords(b)
  {
    if a == [] {
      assert a + b == b;
    } else {
      assert (a + b)[1..] == a[1..] + b;
      BlockWordsAppend(a[1..], b);
    }
  }

  lemma {:induction false} SectionsOfWords(blocks: seq<Block>)
    ensures TaggedWords(SectionsOf(blocks)) == BlockWords(blocks)
  {
    if blocks != [] {
      SectionsOfWords(blocks[1..]);
      BlockSectionsWords(blocks[0]);
      TaggedWordsAppend(BlockSections(blocks[0]), SectionsOf(blocks[1..]));
    }
  }

  lemma BlockWordsLast(blocks: seq<Block>)
    requires blocks != []
    ensures BlockWords(blocks) == BlockWords(Closed(blocks)) + Tag(Open(blocks).header, SplitAll(Open(blocks).body))
  {
    BlockWordsAppend(Closed(blocks), [Open(blocks)]);
    assert Closed(blocks) + [Open(blocks)] == blocks;
    assert [Open(blocks)][1..] == [];
  }

  /** Reading the lines block by block gives the same tagged words as reading
      them line by line, and the open block carries the header in force. */
  lemma {:induction false} BlocksMatchLines(lines: seq<string>)
    ensures BlockWords(Blocks(lines)) == ExpectedWords(lines)
    ensures Open(Blocks(lines)).header == HeaderAfter(lines)
    decreases |lines|
  {
    if lines == [] {
      assert BlockWords([Block(DefaultHeader, [])]) == Tag(DefaultHeader, []) + BlockWords([]);
    } else {
      var i := |lines| - 1;
      var before := lines[..i];
      assert lines[..i + 1] == lines;
      BlocksMatchLines(before);
      var line := Strip(lines[i]);
      var blocks := Blocks(before);
      if IsHeading(line) {
        BlocksHeading(lines, i);
        BlockWordsLast(Blocks(lines));
        assert Closed(Blocks(lines)) == blocks;
      } else if line == [] {
        BlocksBlank(lines, i);
        SplitStrip(lines[i]);
        assert ExpectedWords(lines) == ExpectedWords(before) + [];
      } else {
        BodyLineWords(lines);
      }
    }
  }

  /** The inductive step of `BlocksMatchLines` for a non-blank body line. */
  lemma BodyLineWords(lines: seq<string>)
    requires lines != []
    requires var line := Strip(lines[|lines| - 1]); !IsHeading(line) && line != []
    requires BlockWords(Blocks(lines[..|lines| - 1])) == ExpectedWords(lines[..|lines| - 1])
    requires Open(Blocks(lines[..|lines| - 1])).header == HeaderAfter(lines[..|lines| - 1])
    ensures BlockWords(Blocks(lines)) == ExpectedWords(lines)
    ensures Open(Blocks(lines)).header == HeaderAfter(lines)
  {
    var i := |lines| - 1;
    assert lines[..i + 1] == lines;
    var blocks := Blocks(lines[..i]);
    BlocksBody(lines, i);
    GrowOpenBlock(blocks, Blocks(lines), Strip(lines[i]));
    SplitStrip(lines[i]);
    assert HeaderAfter(lines) == HeaderAfter(lines[..i]);
    assert ExpectedWords(lines) == ExpectedWords(lines[..i]) + Tag(HeaderAfter(lines[..i]), Split(lines[i]));
  }

  /** Adding a line to the open block adds that line's words, under the open
      block's header. */
  lemma GrowOpenBlock(blocks: seq<Block>, after: seq<Block>, line: string)
    requires blocks != [] && after != []
    requires Closed(after) == Closed(blocks)
    requires Open(after) == Block(Open(blocks).header, Open(blocks).body + [line])
    ensures BlockWords(after) == BlockWords(blocks) + Tag(Open(blocks).header, Split(line))
  {
    var header, body := Open(blocks).header, Open(blocks).body;
    SplitAllAppend(body, [line]);
    SplitAllSingle(line);
    var words := SplitAll(body + [line]);
    assert words == SplitAll(body) + Split(line);
    TagAppend(header, SplitAll(body), Split(line));
    var closedWords, openWords, lineWords := BlockWords(Closed(blocks)), Tag(header, SplitAll(body)), Tag(header, Split(line));
    BlockWordsLast(after);
    BlockWordsLast(blocks);
    ConcatAssoc(closedWords, openWords, lineWords);
  }

  lemma ConcatAssoc<T>(a: seq<T>, b: seq<T>, c: seq<T>)
    ensures a + (b + c) == (a + b) + c
  {
  }

  /** Word preservation with headers: the words of the emitted sections, in
      order and each with its section's header, are exactly the words of the
      non-heading lines of the text, each with the most recent heading before
      it (or "Introduction"). Nothing is dropped, duplicated or reordered, and
      no heading line is part of any section's text. */
  lemma SegmentWords(text: string)
    ensures TaggedWords(Segment(text)) == ExpectedWords(SplitLines(text))
  {
    SectionsOfWords(Blocks(SplitLines(text)));
    BlocksMatchLines(SplitLines(text));
  }

  lemma {:induction false} SectionsOfWellFormed(blocks: seq<Block>)
    requires forall k :: 0 <= k < |blocks| ==> blocks[k].header == DefaultHeader || IsHeading(blocks[k].header)
    ensures forall k :: 0 <= k < |SectionsOf(blocks)| ==> WellFormedSection(SectionsOf(blocks)[k])
  {
    if blocks != [] {
      SectionsOfWellFormed(blocks[1..]);
      ChunksProperties(Join("\n", blocks[0].body), MaxTokens);
    }
  }

  /** Every emitted section holds between 1 and `MaxTokens` words joined by
      single spaces, under "Introduction" or a heading line. */
  lemma SegmentWellFormed(text: string)
    ensures forall k :: 0 <= k < |Segment(text)| ==> WellFormedSection(Segment(text)[k])
  {
    BlocksHeaders(SplitLines(text));
    SectionsOfWellFormed(Blocks(SplitLines(text)));
  }

  /** Within one section of the text, every chunk but the last holds exactly
      `MaxTokens` words, and there are `ceil(words / MaxTokens)` of them. */
  lemma BlockSectionsSizes(block: Block)
    ensures var sections := BlockSections(block);
      && |sections| == (|SplitAll(block.body)| + MaxTokens - 1) / MaxTokens
      && forall k :: 0 <= k < |sections| - 1 ==> |Split(sections[k].text)| == MaxTokens
  {
    ChunksProperties(Join("\n", block.body), MaxTokens);
    SplitJoin('\n', block.body);
  }

  /** `extract_sections` returns no section exactly when the text has no word
      outside heading lines. */
  lemma SegmentEmpty(text: string)
    ensures Segment(text) == [] <==> ExpectedWords(SplitLines(text)) == []
  {
    SegmentWords(text);
    var sections := Segment(text);
    if sections != [] {
      SegmentWellFormed(text);
      TaggedWordsAppend([sections[0]], sections[1..]);
      assert [sections[0]] + sections[1..] == sections;
      assert |TaggedWords([sections[0]])| == |Split(sections[0].text)| + |TaggedWords([])|;
    }
  }

  /** An upload of an unsupported MIME type yields no section. */
  lemma UnsupportedYieldsNoSections(file: UploadedFile)
    requires !IsSupportedType(file.mimeType)
    ensures Segment(ExtractText(file)) == []
  {
    SegmentEmpty("");
    assert SplitLines("") == [""];
    assert ExpectedWords([""]) == ExpectedWords([]) + Tag(DefaultHeader, Split(""));
  }

  /** Body lines before any heading get the header "Introduction". */
  lemma {:induction false} NoHeadingMeansIntroduction(lines: seq<string>)
    requires forall k :: 0 <= k < |lines| ==> !IsHeading(Strip(lines[k]))
    ensures HeaderAfter(lines) == DefaultHeader
  {
    if lines != [] {
      NoHeadingMeansIntroduction(lines[..|lines| - 1]);
    }
  }

  /** The header in force is the last heading line: of several consecutive
      headings, only the last one heads the lines that follow. */
  lemma {:induction false} LastHeadingWins(lines: seq<string>, i: nat)
    requires i < |lines| && IsHeading(Strip(lines[i]))
    requires forall k :: i < k < |lines| ==> !IsHeading(Strip(lines[k]))
    ensures HeaderAfter(lines) == Strip(lines[i])
  {
    if i < |lines| - 1 {
      LastHeadingWins(lines[..|lines| - 1], i);
    }
  }
}
