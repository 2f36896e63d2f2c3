/**
 The paragraph chunking policy of `DocumentProcessor.process_pdf`: each
 page's text is cut at blank lines (`"\n\n"`), every piece is stripped and
 the empty ones dropped; a paragraph of at most 512 characters becomes one
 chunk, a longer one is re-cut on whitespace into chunks of 100 words joined
 by single spaces. Text extraction from the PDF is outside the model: the
 page texts are the input.
 */
module Chunking {
  import opened Text

  const ParagraphSeparator: string := "\n\n"
  const MaxParagraphLength: nat := 512
  const WordsPerChunk: nat := 100

  /** What every emitted chunk looks like: non-empty, no whitespace at either end. */
  predicate WellFormedChunk(c: string) {
    c != [] && Stripped(c)
  }

  predicate AllWellFormed(cs: seq<string>) {
    forall i :: 0 <= i < |cs| ==> WellFormedChunk(cs[i])
  }

  // ---------------------------------------------------------------------
  // Paragraphs: [p.strip() for p in text.split('\n\n') if p.strip()]

  /** Strips every segment and keeps the non-empty results, in order. */
  function CleanSegments(segments: seq<string>): seq<string> {
    if segments == [] then []
    else
      var p := Strip(segments[0]);
      var rest := CleanSegments(segments[1..]);
      if p != [] then [p] + rest else rest
  }

  function Paragraphs(text: string): seq<string> {
    CleanSegments(Split(text, ParagraphSeparator))
  }

  /** Every paragraph is non-empty and stripped, and there are no more
      paragraphs than segments. */
  lemma {:induction false} CleanSegmentsWellFormed(segments: seq<string>)
    ensures var r := CleanSegments(segments); AllWellFormed(r) && |r| <= |segments|
  {
    if segments != [] {
      CleanSegmentsWellFormed(segments[1..]);
      var p := Strip(segments[0]);
      var rest := CleanSegments(segments[1..]);
      if p != [] {
        var r := [p] + rest;
        forall i | 0 <= i < |r| ensures WellFormedChunk(r[i]) {
          if i > 0 {
            assert r[i] == rest[i - 1];
          }
        }
      }
    }
  }

  lemma {:induction false} CleanSegmentsAppend(a: seq<string>, b: seq<string>)
    ensures CleanSegments(a + b) == CleanSegments(a) + CleanSegments(b)
  {
    if a == [] {
      assert a + b == b;
    } else {
      assert (a + b)[1..] == a[1..] + b;
      CleanSegmentsAppend(a[1..], b);
    }
  }

  /** A segment that is empty or only whitespace contributes no paragraph:
      removing it from anywhere in the list changes nothing. */
  lemma {:induction false} BlankSegmentIgnored(a: seq<string>, blank: string, b: seq<string>)
    requires AllSpace(blank)
    ensures CleanSegments(a + [blank] + b) == CleanSegments(a + b)
  {
    BlankSegmentEmpty(blank);
    CleanSegmentsAppend(a, [blank]);
    var ca := CleanSegments(a);
    assert CleanSegments(a + [blank]) == ca by { assert ca + [] == ca; }
    CleanSegmentsAppend(a + [blank], b);
    CleanSegmentsAppend(a, b);
  }

  lemma {:induction false} BlankSegmentEmpty(blank: string)
    requires AllSpace(blank)
    ensures CleanSegments([blank]) == []
  {
    assert Strip(blank) == [];
    assert [blank][1..] == [];
  }

  lemma {:induction false} CleanSegmentsAllBlank(segments: seq<string>)
    requires forall i :: 0 <= i < |segments| ==> AllSpace(segments[i])
    ensures CleanSegments(segments) == []
  {
    if segments != [] {
      CleanSegmentsAllBlank(segments[1..]);
    }
  }

  /** Stripping and dropping blank segments keeps every word, in order. */
  lemma {:induction false} CleanSegmentsWords(segments: seq<string>)
    ensures WordsOf(CleanSegments(segments)) == WordsOf(segments)
  {
    if segments != [] {
      var first, others := segments[0], segments[1..];
      CleanSegmentsWords(others);
      ConcatMapCons(Words, first, others);
      assert [first] + others == segments;
      var p := Strip(first);
      SplitWordsStrip(first);
      if p != [] {
        ConcatMapCons(Words, p, CleanSegments(others));
      } else {
        SplitWordsAllSpace(first);
      }
    }
  }

  /** A page of whitespace (empty included) has no paragraphs. */
  lemma {:induction false} BlankPageHasNoParagraphs(text: string)
    requires AllSpace(text)
    ensures Paragraphs(text) == []
  {
    SplitOfBlank(text, ParagraphSeparator);
    CleanSegmentsAllBlank(Split(text, ParagraphSeparator));
  }

  /** A page without a blank line whose stripped text is non-empty is one paragraph. */
  lemma {:induction false} SingleParagraphPage(text: string)
    requires !Contains(text, ParagraphSeparator) && Strip(text) != []
    ensures Paragraphs(text) == [Strip(text)]
  {
    SplitWithoutSeparator(text, ParagraphSeparator);
    assert [text][0] == text && [text][1..] == [];
    assert CleanSegments([text]) == [Strip(text)] + CleanSegments([]);
  }

  // ---------------------------------------------------------------------
  // Chunks

  function Min(a: nat, b: nat): nat {
    if a <= b then a else b
  }

  /** `' '.join(words[i:i + 100])` for i = 0, 100, 200, ... below `len(words)`. */
  function Groups(words: seq<string>): seq<string>
    decreases |words|
  {
    if words == [] then []
    else
      var k := Min(WordsPerChunk, |words|);
      [Join(words[..k], " ")] + Groups(words[k..])
  }

  /** The chunks of one stripped paragraph. */
  function ChunkParagraph(p: string): seq<string> {
    if |p| > MaxParagraphLength then Groups(SplitWords(p)) else [p]
  }

  /** The chunks of a list of paragraphs, paragraph after paragraph. */
  function ChunkParagraphs(ps: seq<string>): seq<string> {
    ConcatMap(ChunkParagraph, ps)
  }

  /** The chunks of one page. */
  function ChunkPage(text: string): seq<string> {
    ChunkParagraphs(Paragraphs(text))
  }

  /** The chunks of a document, page after page: what `process_pdf` returns. */
  function ChunkPages(pages: seq<string>): seq<string> {
    ConcatMap(ChunkPage, pages)
  }

  // ---------------------------------------------------------------------
  // Properties of the chunks

  /** Every group but the last holds exactly 100 words. */
  lemma {:induction false} GroupsFull(words: seq<string>)
    requires AllWords(words)
    ensures var gs := Groups(words);
      forall i :: 0 <= i < |gs| - 1 ==> |SplitWords(gs[i])| == WordsPerChunk
    decreases |words|
  {
    if words != [] {
      var k := Min(WordsPerChunk, |words|);
      var head := words[..k];
      AllWordsSlices(words, k);
      GroupsFull(words[k..]);
      SplitWordsJoin(head);
      var gs := Groups(words);
      assert gs == [Join(head, " ")] + Groups(words[k..]);
      forall i | 1 <= i < |gs| ensures gs[i] == Groups(words[k..])[i - 1] { }
    }
  }

  /** There are ceil(n / 100) groups of n words. */
  lemma {:induction false} GroupsCount(words: seq<string>)
    ensures |Groups(words)| == (|words| + WordsPerChunk - 1) / WordsPerChunk
    decreases |words|
  {
    if words != [] {
      var k := Min(WordsPerChunk, |words|);
      GroupsCount(words[k..]);
      assert |Groups(words)| == 1 + |Groups(words[k..])|;
    }
  }

  /** Every group is a well-formed chunk of 1 to 100 words, and is its
      words joined by single spaces. */
  lemma {:induction false} GroupsChunks(words: seq<string>)
    requires AllWords(words)
    ensures var gs := Groups(words);
      AllWellFormed(gs) &&
      (forall i :: 0 <= i < |gs| ==> 1 <= |SplitWords(gs[i])| <= WordsPerChunk) &&
      (forall i :: 0 <= i < |gs| ==> gs[i] == Join(SplitWords(gs[i]), " "))
    decreases |words|
  {
    if words != [] {
      var k := Min(WordsPerChunk, |words|);
      var head := words[..k];
      AllWordsSlices(words, k);
      GroupsChunks(words[k..]);
      SplitWordsJoin(head);
      JoinWordsStripped(head);
      var gs, tail := Groups(words), Groups(words[k..]);
      assert gs == [Join(head, " ")] + tail;
      forall i | 0 <= i < |gs|
        ensures WellFormedChunk(gs[i]) && 1 <= |SplitWords(gs[i])| <= WordsPerChunk
        ensures gs[i] == Join(SplitWords(gs[i]), " ")
      {
        if i > 0 { assert gs[i] == tail[i - 1]; }
      }
    }
  }

  /** The words of the groups, read in order, are the input words. */
  lemma {:induction false} GroupsWords(words: seq<string>)
    requires AllWords(words)
    ensures WordsOf(Groups(words)) == words
    decreases |words|
  {
    if words != [] {
      var k := Min(WordsPerChunk, |words|);
      var head := words[..k];
      AllWordsSlices(words, k);
      GroupsWords(words[k..]);
      SplitWordsJoin(head);
      var g, tail := Join(head, " "), Groups(words[k..]);
      assert Groups(words) == [g] + tail;
      ConcatMapCons(Words, g, tail);
      assert head + words[k..] == words;
    }
  }

  /** Every group of words is a well-formed chunk of 1 to 100 words, every
      group but the last has exactly 100, each is its words joined by single
      spaces, they number ceil(n / 100), and their words, read in order, are
      the input words: the groups are `' '.join(words[0:100])`,
      `' '.join(words[100:200])`, ... */
  lemma {:induction false} GroupsProperties(words: seq<string>)
    requires AllWords(words)
    ensures var gs := Groups(words);
      |gs| == (|words| + WordsPerChunk - 1) / WordsPerChunk &&
      AllWellFormed(gs) &&
      (forall i :: 0 <= i < |gs| ==> 1 <= |SplitWords(gs[i])| <= WordsPerChunk) &&
      (forall i :: 0 <= i < |gs| - 1 ==> |SplitWords(gs[i])| == WordsPerChunk) &&
      (forall i :: 0 <= i < |gs| ==> gs[i] == Join(SplitWords(gs[i]), " ")) &&
      WordsOf(gs) == words
  {
    GroupsCount(words);
    GroupsChunks(words);
    GroupsFull(words);
    GroupsWords(words);
  }

  lemma {:induction false} ChunkParagraphWellFormed(p: string)
    requires WellFormedChunk(p)
    ensures AllWellFormed(ChunkParagraph(p))
  {
    if |p| > MaxParagraphLength {
      SplitWordsAreWords(p);
      GroupsProperties(SplitWords(p));
    }
  }

  lemma {:induction false} AllWellFormedAppend(a: seq<string>, b: seq<string>)
    requires AllWellFormed(a) && AllWellFormed(b)
    ensures AllWellFormed(a + b)
  {
    forall i | 0 <= i < |a + b| ensures WellFormedChunk((a + b)[i]) {
      if i < |a| {
        assert (a + b)[i] == a[i];
      } else {
        assert (a + b)[i] == b[i - |a|];
      }
    }
  }

  lemma {:induction false} ChunkParagraphsWellFormed(ps: seq<string>)
    requires AllWellFormed(ps)
    ensures AllWellFormed(ChunkParagraphs(ps))
  {
    if ps != [] {
      var init, last := ps[..|ps| - 1], ps[|ps| - 1];
      assert AllWellFormed(init) by {
        forall i | 0 <= i < |init| ensures WellFormedChunk(init[i]) { assert init[i] == ps[i]; }
      }
      ChunkParagraphsWellFormed(init);
      ChunkParagraphWellFormed(last);
      AllWellFormedAppend(ChunkParagraphs(init), ChunkParagraph(last));
    }
  }

  /** Every chunk of a document is non-empty and has no whitespace at either end. */
  lemma {:induction false} ChunkPagesWellFormed(pages: seq<string>)
    ensures AllWellFormed(ChunkPages(pages))
  {
    if pages != [] {
      var init, last := pages[..|pages| - 1], pages[|pages| - 1];
      ChunkPagesWellFormed(init);
      CleanSegmentsWellFormed(Split(last, ParagraphSeparator));
      ChunkParagraphsWellFormed(Paragraphs(last));
      AllWellFormedAppend(ChunkPages(init), ChunkPage(last));
    }
  }

  /** A paragraph longer than 512 characters with n words yields ceil(n / 100)
      chunks of 1 to 100 words each, all but the last of exactly 100, each its
      words joined by single spaces, whose words read in order are the
      paragraph's words. */
  lemma {:induction false} LongParagraph(p: string)
    requires |p| > MaxParagraphLength
    ensures var cs, n := ChunkParagraph(p), |SplitWords(p)|;
      |cs| == (n + WordsPerChunk - 1) / WordsPerChunk &&
      (forall i :: 0 <= i < |cs| ==> 1 <= |SplitWords(cs[i])| <= WordsPerChunk) &&
      (forall i :: 0 <= i < |cs| - 1 ==> |SplitWords(cs[i])| == WordsPerChunk) &&
      (forall i :: 0 <= i < |cs| ==> cs[i] == Join(SplitWords(cs[i]), " ")) &&
      WordsOf(cs) == SplitWords(p)
  {
    SplitWordsAreWords(p);
    GroupsProperties(SplitWords(p));
  }

  /** A stripped paragraph of 512 characters or fewer is one chunk, itself. */
  lemma {:induction false} ShortParagraphs(ps: seq<string>)
    requires AllWellFormed(ps)
    requires forall i :: 0 <= i < |ps| ==> |ps[i]| <= MaxParagraphLength
    ensures ChunkParagraphs(ps) == ps
  {
    if ps != [] {
      ShortParagraphs(ps[..|ps| - 1]);
      assert ps[..|ps| - 1] + [ps[|ps| - 1]] == ps;
    }
  }

  /** A page that is one short paragraph, surrounded by any whitespace, is
      emitted as exactly one chunk equal to the stripped text. */
  lemma {:induction false} ShortParagraphPage(text: string)
    requires !Contains(text, ParagraphSeparator)
    requires Strip(text) != [] && |Strip(text)| <= MaxParagraphLength
    ensures ChunkPage(text) == [Strip(text)]
  {
    SingleParagraphPage(text);
    ShortParagraphs([Strip(text)]);
  }

  /** A whitespace-only page contributes nothing. */
  lemma {:induction false} BlankPage(text: string)
    requires AllSpace(text)
    ensures ChunkPage(text) == []
  {
    BlankPageHasNoParagraphs(text);
  }

  /** Chunking keeps every word of every paragraph, in order. */
  lemma {:induction false} ChunkParagraphsWords(ps: seq<string>)
    ensures WordsOf(ChunkParagraphs(ps)) == WordsOf(ps)
  {
    if ps != [] {
      var init, last := ps[..|ps| - 1], ps[|ps| - 1];
      ChunkParagraphsWords(init);
      ConcatMapAppend(Words, ChunkParagraphs(init), ChunkParagraph(last));
      if |last| > MaxParagraphLength {
        LongParagraph(last);
      } else {
        ConcatMapCons(Words, last, []);
        assert [last] + [] == [last];
      }
    }
  }

  /** The words of a page's chunks, read in order, are exactly the words of
      the page: the chunker loses, invents and reorders nothing. */
  lemma {:induction false} PageWords(text: string)
    ensures WordsOf(ChunkPage(text)) == SplitWords(text)
  {
    var segments := Split(text, ParagraphSeparator);
    ChunkParagraphsWords(Paragraphs(text));
    CleanSegmentsWords(segments);
    SplitWordsJoinedParts(segments, ParagraphSeparator);
    SplitJoin(text, ParagraphSeparator);
  }

  /** Chunks appear in page order: the chunks of a concatenation of page
      lists are the concatenation of their chunks. */
  lemma {:induction false} PagesAppend(a: seq<string>, b: seq<string>)
    ensures ChunkPages(a + b) == ChunkPages(a) + ChunkPages(b)
  {
    ConcatMapAppend(ChunkPage, a, b);
  }

  /** The words of a document's chunks are the words of its pages, page by page. */
  lemma {:induction false} DocumentWords(pages: seq<string>)
    ensures WordsOf(ChunkPages(pages)) == WordsOf(pages)
  {
    if pages != [] {
      var init, last := pages[..|pages| - 1], pages[|pages| - 1];
      DocumentWords(init);
      PageWords(last);
      ConcatMapAppend(Words, ChunkPages(init), ChunkPage(last));
    }
  }

  /** One turn of the word-group loop: the groups from word `i` on are the
      non-empty chunk `' '.join(words[i:i + 100])` followed by the groups
      from word `i + 100` on. */
  lemma {:induction false} GroupsStep(words: seq<string>, i: nat)
    requires AllWords(words) && i < |words|
    ensures var j := Min(i + WordsPerChunk, |words|);
      var chunk := Join(words[i..j], " ");
      chunk != [] && Groups(words[i..]) == [chunk] + Groups(words[j..])
  {
    var j := Min(i + WordsPerChunk, |words|);
    var k := Min(WordsPerChunk, |words| - i);
    assert words[i..][..k] == words[i..j];
    assert words[i..][k..] == words[j..];
    AllWordsSlices(words, i);
    AllWordsSlices(words[i..], k);
    JoinWordsStripped(words[i..j]);
  }

  // ---------------------------------------------------------------------
  // process_pdf, as the source writes it: nested loops appending to `chunks`

  /** One turn of the paragraph loop: appends the chunks of `paragraph`,
      word group by word group when it is longer than 512 characters. */
  method AppendParagraph(chunks: seq<string>, paragraph: string) returns (out: seq<string>)
    ensures out == chunks + ChunkParagraph(paragraph)
  {
    out := chunks;
    if |paragraph| > MaxParagraphLength {
      var words := SplitWords(paragraph);
      SplitWordsAreWords(paragraph);
      var i := 0;
      while i < |words|
        invariant out + Groups(words[Min(i, |words|)..]) == chunks + Groups(words)
      {
        var chunk := Join(words[i..Min(i + WordsPerChunk, |words|)], " ");
        GroupsStep(words, i);
        if chunk != [] {
          out := out + [chunk];
        }
        i := i + WordsPerChunk;
      }
      assert words[Min(i, |words|)..] == [];
    } else {
      out := out + [paragraph];
    }
  }

  /** One turn of the page loop: appends the chunks of every paragraph of the page. */
  method AppendPage(chunks: seq<string>, text: string) returns (out: seq<string>)
    ensures out == chunks + ChunkPage(text)
  {
    var paragraphs := Paragraphs(text);
    out := chunks;
    for qi := 0 to |paragraphs|
      invariant out == chunks + ChunkParagraphs(paragraphs[..qi])
    {
      out := AppendParagraph(out, paragraphs[qi]);
      ConcatMapPrefix(ChunkParagraph, paragraphs, qi);
    }
    assert paragraphs[..|paragraphs|] == paragraphs;
  }

  /** `process_pdf` after text extraction: the chunks of every page, in order,
      every one of them non-empty and stripped, and together holding exactly
      the words of the pages. */
  method ProcessPdf(pages: seq<string>) returns (chunks: seq<string>)
    ensures chunks == ChunkPages(pages)
    ensures AllWellFormed(chunks)
    ensures WordsOf(chunks) == WordsOf(pages)
  {
    chunks := [];
    for pi := 0 to |pages|
      invariant chunks == ChunkPages(pages[..pi])
    {
      chunks := AppendPage(chunks, pages[pi]);
      ConcatMapPrefix(ChunkPage, pages, pi);
    }
    assert pages[..|pages|] == pages;
    ChunkPagesWellFormed(pages);
    DocumentWords(pages);
  }
}
