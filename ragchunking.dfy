/**
 * The textbook half of FinancialRAG (rag.py:72-241). It takes the text of a PDF's pages and
 * turns it into chunks. It assembles the pages into one text, looks for section titles in a
 * table of contents, and cuts the text into chunks. The cut is by section when titles were
 * found and by paragraph otherwise.
 *
 * The PDF library is outside the model: a document arrives as the list of what
 * page.extract_text() returned for each page, None where that call raised. The table of
 * contents regular expressions are modelled by what re.findall returns for them: a
 * Matcher maps a text to the list of its matches.
 */
module RagChunking {
  import opened Wrappers
  import opened Text
  import opened Packing

  /** A unit of retrievable text with its tags; source and section are absent on hardcoded rules. */
  datatype Chunk = Chunk(text: string, topic: string, source: Option<string>, section: Option<string>)

  const TextbookSource: string := "pdf_valuation"
  const SectionTopic: string := "textbook_section"
  const ParagraphTopic: string := "textbook_content"

  /** Section content of at most this many characters is dropped (rag.py:163). */
  const MinSectionContent: nat := 100
  /** Section content over this many characters is split into paragraph chunks (rag.py:165). */
  const SplitThreshold: nat := 2000
  /** Paragraphs shorter than this are skipped in paragraph mode (rag.py:216). */
  const MinParagraph: nat := 50
  /** A paragraph with "Page" among its first this many characters is a page header (rag.py:216). */
  const HeaderWindow: nat := 20
  /** Only this many title candidates are considered (rag.py:137). */
  const MaxTitleCandidates: nat := 20

  // ---------------------------------------------------------------------------------------
  // Page assembly (rag.py:79-91)
  // ---------------------------------------------------------------------------------------

  /** A page that contributes text: its extraction succeeded and is not blank. */
  predicate Contributes(page: Option<string>) {
    page.Some? && !IsBlank(page.value)
  }

  /** What the page with 0-based number pageNum adds to the full text. */
  function PageBlock(pageNum: nat, page: Option<string>): string {
    if Contributes(page) then "\n--- Page " + NatToString(pageNum + 1) + " ---\n" + page.value else ""
  }

  /** The full text of a document: the blocks of its pages, in page order. */
  function AssembledText(pages: seq<Option<string>>): string
    decreases |pages|
  {
    if |pages| == 0 then ""
    else AssembledText(pages[..|pages| - 1]) + PageBlock(|pages| - 1, pages[|pages| - 1])
  }

  lemma AssembledTextStep(pages: seq<Option<string>>, n: nat)
    requires n < |pages|
    ensures AssembledText(pages[..n + 1]) == AssembledText(pages[..n]) + PageBlock(n, pages[n])
  {
    assert pages[..n + 1][..n] == pages[..n];
  }

  /** The body of the page loop: a page that was read and is not blank is added under its header. */
  method AddPage(fullText: string, pageNum: nat, page: Option<string>) returns (newText: string)
    ensures newText == fullText + PageBlock(pageNum, page)
  {
    newText := fullText;
    match page {
      case None =>
        // page.extract_text() raised: the page is skipped
      case Some(pageText) =>
        if Strip(pageText) != "" {
          newText := fullText + "\n--- Page " + NatToString(pageNum + 1) + " ---\n" + pageText;
        }
    }
    assert PageBlock(pageNum, page) == "" ==> fullText + PageBlock(pageNum, page) == fullText;
  }

  /** The page loop of _process_pdf_textbook. */
  method AssemblePages(pages: seq<Option<string>>) returns (fullText: string)
    ensures fullText == AssembledText(pages)
  {
    fullText := "";
    for pageNum := 0 to |pages|
      invariant fullText == AssembledText(pages[..pageNum])
    {
      AssembledTextStep(pages, pageNum);
      fullText := AddPage(fullText, pageNum, pages[pageNum]);
    }
    assert pages[..|pages|] == pages;
  }

  lemma BlankConcat(a: string, b: string)
    ensures IsBlank(a + b) <==> IsBlank(a) && IsBlank(b)
  {
    if IsBlank(a + b) {
      assert forall i | 0 <= i < |a| :: (a + b)[i] == a[i];
      assert forall i | 0 <= i < |b| :: (a + b)[|a| + i] == b[i];
    }
  }

  /** The full text is blank exactly when no page contributes. */
  lemma {:induction false} AssembledBlankIff(pages: seq<Option<string>>)
    ensures IsBlank(AssembledText(pages)) <==> forall i :: 0 <= i < |pages| ==> !Contributes(pages[i])
    decreases |pages|
  {
    if |pages| > 0 {
      var n := |pages| - 1;
      var init := pages[..n];
      AssembledBlankIff(init);
      BlankConcat(AssembledText(init), PageBlock(n, pages[n]));
      if Contributes(pages[n]) {
        assert PageBlock(n, pages[n])[1] == '-';
      }
      assert forall i :: 0 <= i < n ==> init[i] == pages[i];
    }
  }

  // ---------------------------------------------------------------------------------------
  // Section titles from a table of contents (rag.py:107-141)
  // ---------------------------------------------------------------------------------------

  /** re.findall of one pattern: the matches in a text (the captured groups, for a pattern with one), in order. */
  type Matcher = string -> seq<string>

  /** `[s.strip() for s in found]`. */
  function StripAll(found: seq<string>): seq<string> {
    seq(|found|, i requires 0 <= i < |found| => Strip(found[i]))
  }

  /** The candidates the title patterns find in a TOC region, stripped, pattern by pattern. */
  function TitlesIn(toc: string, titlePatterns: seq<Matcher>): seq<string>
    decreases |titlePatterns|
  {
    if |titlePatterns| == 0 then []
    else
      var n := |titlePatterns| - 1;
      TitlesIn(toc, titlePatterns[..n]) + StripAll(titlePatterns[n](toc))
  }

  /** A lead-in pattern that matches and whose first match yields at least one candidate. */
  predicate Productive(text: string, leadIn: Matcher, titlePatterns: seq<Matcher>) {
    |leadIn(text)| > 0 && |TitlesIn(leadIn(text)[0], titlePatterns)| > 0
  }

  /**
   * The raw title candidates: those of the first productive lead-in. A lead-in that
   * matches but yields nothing falls through to the next one; with no productive lead-in
   * there are none.
   */
  function TocCandidates(text: string, leadIns: seq<Matcher>, titlePatterns: seq<Matcher>): (r: seq<string>)
    ensures r == [] <==> forall i :: 0 <= i < |leadIns| ==> !Productive(text, leadIns[i], titlePatterns)
    ensures forall i :: 0 <= i < |leadIns| && Productive(text, leadIns[i], titlePatterns) &&
                        (forall j :: 0 <= j < i ==> !Productive(text, leadIns[j], titlePatterns)) ==>
              r == TitlesIn(leadIns[i](text)[0], titlePatterns)
    decreases |leadIns|
  {
    if |leadIns| == 0 then []
    else if Productive(text, leadIns[0], titlePatterns) then TitlesIn(leadIns[0](text)[0], titlePatterns)
    else
      var r := TocCandidates(text, leadIns[1..], titlePatterns);
      assert forall i :: 1 <= i < |leadIns| ==> leadIns[1..][i - 1] == leadIns[i];
      r
  }

  /** A title of reasonable length (rag.py:138). */
  predicate ReasonableTitle(title: string) {
    10 < |title| < 100
  }

  /**
   * The cleaning step: among the first MaxTitleCandidates candidates, those of reasonable
   * length, in their original order and with their repetitions: the titles are the candidates
   * at the increasing positions idx, and a position is in idx exactly when its title is reasonable.
   */
  function CleanTitles(candidates: seq<string>): (titles: seq<string>)
    ensures |titles| <= MaxTitleCandidates
    ensures forall t :: t in titles ==>
              ReasonableTitle(t) && t in candidates[..Min(MaxTitleCandidates, |candidates|)]
    ensures forall t :: t in candidates[..Min(MaxTitleCandidates, |candidates|)] && ReasonableTitle(t) ==>
              t in titles
    ensures var head := candidates[..Min(MaxTitleCandidates, |candidates|)];
            var idx := KeptIndices(head, ReasonableTitle);
            && SublistAt(titles, head, idx)
            && forall j :: 0 <= j < |head| ==> (ReasonableTitle(head[j]) <==> j in idx)
  {
    var head := candidates[..Min(MaxTitleCandidates, |candidates|)];
    FilterMembers(head, ReasonableTitle);
    FilterOrder(head, ReasonableTitle);
    Filter(head, ReasonableTitle)
  }

  /** The title candidates of one TOC region: every title pattern's stripped matches, pattern by pattern. */
  method CollectTitles(tocText: string, titlePatterns: seq<Matcher>) returns (sections: seq<string>)
    ensures sections == TitlesIn(tocText, titlePatterns)
  {
    sections := [];
    for j := 0 to |titlePatterns|
      invariant sections == TitlesIn(tocText, titlePatterns[..j])
    {
      var found := titlePatterns[j](tocText);
      sections := sections + StripAll(found);
      assert titlePatterns[..j + 1][..j] == titlePatterns[..j];
    }
    assert titlePatterns[..|titlePatterns|] == titlePatterns;
  }

  /** A lead-in that yields nothing passes the search on to the remaining lead-ins. */
  lemma TocCandidatesSkip(text: string, leadIns: seq<Matcher>, titlePatterns: seq<Matcher>, i: nat)
    requires i < |leadIns| && !Productive(text, leadIns[i], titlePatterns)
    ensures TocCandidates(text, leadIns[i..], titlePatterns) == TocCandidates(text, leadIns[i + 1..], titlePatterns)
  {
    assert leadIns[i..][1..] == leadIns[i + 1..];
  }

  /** A lead-in whose region yields candidates ends the search with them. */
  method FirstProductive(text: string, leadIns: seq<Matcher>, titlePatterns: seq<Matcher>)
    returns (sections: seq<string>)
    ensures sections == TocCandidates(text, leadIns, titlePatterns)
  {
    sections := [];
    var i := 0;
    while i < |leadIns|
      invariant 0 <= i <= |leadIns|
      invariant TocCandidates(text, leadIns, titlePatterns) == TocCandidates(text, leadIns[i..], titlePatterns)
    {
      var matches := leadIns[i](text);
      if |matches| > 0 {
        sections := CollectTitles(matches[0], titlePatterns);
        if |sections| > 0 {
          return;
        }
      }
      TocCandidatesSkip(text, leadIns, titlePatterns, i);
      i := i + 1;
    }
    sections := [];
  }

  /** The cleaning loop: keep the first 20 candidates of reasonable length. */
  method KeepReasonable(sections: seq<string>) returns (cleaned: seq<string>)
    ensures cleaned == CleanTitles(sections)
  {
    var head := sections[..Min(MaxTitleCandidates, |sections|)];
    cleaned := [];
    for k := 0 to |head|
      invariant cleaned == Filter(head[..k], ReasonableTitle)
    {
      var section := head[k];
      assert head[..k + 1][..k] == head[..k];
      if |section| > 10 && |section| < 100 {
        cleaned := cleaned + [section];
      }
    }
    assert head[..|head|] == head;
  }

  /** _extract_toc_sections. */
  method ExtractTocSections(text: string, leadIns: seq<Matcher>, titlePatterns: seq<Matcher>)
    returns (cleaned: seq<string>)
    ensures cleaned == CleanTitles(TocCandidates(text, leadIns, titlePatterns))
  {
    var sections := FirstProductive(text, leadIns, titlePatterns);
    cleaned := KeepReasonable(sections);
  }

  // ---------------------------------------------------------------------------------------
  // Section mode (rag.py:143-203)
  // ---------------------------------------------------------------------------------------

  /**
   * What `title(.*?)(?=next|$)` captures, with DOTALL and IGNORECASE. It starts right after
   * the first occurrence of the title, ignoring case. It ends at the first occurrence of
   * the next title from there, or at the end of the text. The last title has no next one
   * and always runs to the end. None when the title does not occur.
   */
  function SectionContent(text: string, sections: seq<string>, i: nat): (r: Option<string>)
    requires i < |sections|
    ensures r.None? <==> Find(text, Strip(sections[i]), true).None?
    ensures r.Some? ==>
              var title := Strip(sections[i]);
              var at := Find(text, title, true).value;
              var start, end := at + |title|, at + |title| + |r.value|;
              var next := if i + 1 < |sections| then Strip(sections[i + 1]) else "";
              && MatchesAt(text, at, title, true)
              && (forall k :: 0 <= k < at ==> !MatchesAt(text, k, title, true))
              && end <= |text| && r.value == text[start..end]
              && (i + 1 == |sections| ==> end == |text|)
              && (i + 1 < |sections| ==>
                    && (end == |text| || MatchesAt(text, end, next, true))
                    && forall k :: start <= k < end ==> !MatchesAt(text, k, next, true))
  {
    var title := Strip(sections[i]);
    match Find(text, title, true)
    case None => None
    case Some(at) =>
      var start := at + |title|;
      var end :=
        if i < |sections| - 1 then
          match FindFrom(text, Strip(sections[i + 1]), true, start)
          case Some(e) => e
          case None => |text|
        else |text|;
      Some(text[start..end])
  }

  /** A section chunk: the title, a blank line, then the body. */
  function SectionChunk(title: string, body: string): Chunk {
    Chunk(title + ParagraphSep + body, SectionTopic, Some(TextbookSource), Some(title))
  }

  function SectionChunksFor(title: string, bodies: seq<string>): seq<Chunk> {
    seq(|bodies|, k requires 0 <= k < |bodies| => SectionChunk(title, bodies[k]))
  }

  /** Every chunk is a textbook section chunk. */
  predicate SectionTagged(cs: seq<Chunk>) {
    forall c :: c in cs ==> c.source == Some(TextbookSource) && c.topic == SectionTopic
  }

  /** The chunks one section produces. */
  function ChunksOfSection(text: string, sections: seq<string>, i: nat): (r: seq<Chunk>)
    requires i < |sections|
    ensures SectionTagged(r)
  {
    match SectionContent(text, sections, i)
    case None => []
    case Some(raw) =>
      var content := Strip(raw);
      if |content| <= MinSectionContent then []
      else if |content| <= SplitThreshold then [SectionChunk(sections[i], content)]
      else SectionChunksFor(sections[i], Pack(Split(content, ParagraphSep)))
  }

  /** The chunks of the first n sections, in order. */
  function SectionChunksUpTo(text: string, sections: seq<string>, n: nat): (r: seq<Chunk>)
    requires n <= |sections|
    ensures SectionTagged(r)
    decreases n
  {
    if n == 0 then []
    else
      var before, last := SectionChunksUpTo(text, sections, n - 1), ChunksOfSection(text, sections, n - 1);
      TaggedConcat(before, last);
      before + last
  }

  lemma TaggedConcat(a: seq<Chunk>, b: seq<Chunk>)
    requires SectionTagged(a) && SectionTagged(b)
    ensures SectionTagged(a + b)
  {
  }

  function SectionChunks(text: string, sections: seq<string>): seq<Chunk> {
    SectionChunksUpTo(text, sections, |sections|)
  }

  lemma SectionChunksForSnoc(title: string, bodies: seq<string>, body: string)
    ensures SectionChunksFor(title, bodies + [body]) == SectionChunksFor(title, bodies) + [SectionChunk(title, body)]
  {
  }

  /** The greedy loop for one long section: its paragraphs packed into chunks under its title. */
  method PackSection(sectionTitle: string, paragraphs: seq<string>) returns (chunks: seq<Chunk>)
    ensures chunks == SectionChunksFor(sectionTitle, Pack(paragraphs))
  {
    chunks := [];
    var currentChunk := "";
    for k := 0 to |paragraphs|
      invariant chunks == SectionChunksFor(sectionTitle, PackPrefix(paragraphs[..k]).done)
      invariant currentChunk == PackPrefix(paragraphs[..k]).current
    {
      var para := paragraphs[k];
      PackPrefixStep(paragraphs, k);
      if |currentChunk| + |para| > ChunkLimit {
        if currentChunk != "" {
          SectionChunksForSnoc(sectionTitle, PackPrefix(paragraphs[..k]).done, currentChunk);
          chunks := chunks + [SectionChunk(sectionTitle, currentChunk)];
        }
        currentChunk := para;
      } else {
        currentChunk := if currentChunk != "" then currentChunk + ParagraphSep + para else para;
      }
    }
    assert paragraphs[..|paragraphs|] == paragraphs;
    if currentChunk != "" {
      SectionChunksForSnoc(sectionTitle, PackPrefix(paragraphs).done, currentChunk);
      chunks := chunks + [SectionChunk(sectionTitle, currentChunk)];
    }
  }

  /** The body of the section loop: the chunks of section i. */
  method ChunkSection(text: string, sections: seq<string>, i: nat) returns (chunks: seq<Chunk>)
    requires i < |sections|
    ensures chunks == ChunksOfSection(text, sections, i)
  {
    chunks := [];
    var sectionTitle := sections[i];
    var matches := SectionContent(text, sections, i);
    if matches.Some? {
      var content := Strip(matches.value);
      if |content| > MinSectionContent {
        if |content| > SplitThreshold {
          chunks := PackSection(sectionTitle, Split(content, ParagraphSep));
        } else {
          chunks := [SectionChunk(sectionTitle, content)];
        }
      }
    }
  }

  lemma SectionChunksUpToStep(text: string, sections: seq<string>, i: nat)
    requires i < |sections|
    ensures SectionChunksUpTo(text, sections, i + 1) == SectionChunksUpTo(text, sections, i) + ChunksOfSection(text, sections, i)
  {
  }

  /** _create_section_chunks. */
  method CreateSectionChunks(text: string, sections: seq<string>) returns (chunks: seq<Chunk>)
    ensures chunks == SectionChunks(text, sections)
  {
    chunks := [];
    var i := 0;
    while i < |sections|
      invariant 0 <= i <= |sections|
      invariant chunks == SectionChunksUpTo(text, sections, i)
    {
      var sectionChunks := ChunkSection(text, sections, i);
      SectionChunksUpToStep(text, sections, i);
      chunks := chunks + sectionChunks;
      i := i + 1;
    }
  }

  /** The body of a section chunk: its text without the title prefix. */
  function Body(title: string, chunk: Chunk): string
    requires |title| + |ParagraphSep| <= |chunk.text|
  {
    chunk.text[|title| + |ParagraphSep|..]
  }

  /** Every chunk of a section is tagged with the section and starts with its title. */
  lemma SectionChunksTagged(text: string, sections: seq<string>, i: nat)
    requires i < |sections|
    ensures forall c :: c in ChunksOfSection(text, sections, i) ==>
              && c.topic == SectionTopic && c.source == Some(TextbookSource)
              && c.section == Some(sections[i])
              && |sections[i]| + |ParagraphSep| <= |c.text|
              && c.text[..|sections[i]| + |ParagraphSep|] == sections[i] + ParagraphSep
  {
    var title := sections[i];
    var r := SectionContent(text, sections, i);
    if r.Some? {
      var content := Strip(r.value);
      if |content| > SplitThreshold {
        ChunksForTagged(title, Pack(Split(content, ParagraphSep)));
      } else if |content| > MinSectionContent {
        ChunksForTagged(title, [content]);
        assert ChunksOfSection(text, sections, i) == SectionChunksFor(title, [content]);
      }
    }
  }

  lemma ChunksForTagged(title: string, bodies: seq<string>)
    ensures forall c :: c in SectionChunksFor(title, bodies) ==>
              && c.topic == SectionTopic && c.source == Some(TextbookSource)
              && c.section == Some(title)
              && |title| + |ParagraphSep| <= |c.text|
              && c.text[..|title| + |ParagraphSep|] == title + ParagraphSep
  {
    forall c | c in SectionChunksFor(title, bodies)
      ensures |title| + |ParagraphSep| <= |c.text| && c.text[..|title| + |ParagraphSep|] == title + ParagraphSep
    {
      var k :| 0 <= k < |bodies| && c == SectionChunk(title, bodies[k]);
      assert c.text == (title + ParagraphSep) + bodies[k];
    }
  }

  /** Content of at most 100 characters emits nothing; up to 2000 characters, exactly one chunk. */
  lemma SectionShortAndMedium(text: string, sections: seq<string>, i: nat)
    requires i < |sections|
    ensures SectionContent(text, sections, i).None? ==> ChunksOfSection(text, sections, i) == []
    ensures SectionContent(text, sections, i).Some? ==>
              var content := Strip(SectionContent(text, sections, i).value);
              && (|content| <= MinSectionContent ==> ChunksOfSection(text, sections, i) == [])
              && (MinSectionContent < |content| <= SplitThreshold ==>
                    ChunksOfSection(text, sections, i) ==
                    [Chunk(sections[i] + "\n\n" + content, "textbook_section", Some("pdf_valuation"), Some(sections[i]))])
  {
  }

  /**
   * Long content with no empty paragraph: the bodies of the section's chunks, joined by
   * blank lines, give back the content. Splitting each body on blank lines gives back the
   * content's paragraphs, in order. A body made of two or more paragraphs is at most
   * ChunkLimit + 2 characters.
   */
  lemma SectionLongRoundTrip(text: string, sections: seq<string>, i: nat)
    requires i < |sections| && SectionContent(text, sections, i).Some?
    requires var content := Strip(SectionContent(text, sections, i).value);
      |content| > SplitThreshold && NoEmpty(Split(content, ParagraphSep))
    ensures var content := Strip(SectionContent(text, sections, i).value);
      var chunks := ChunksOfSection(text, sections, i);
      var bodies := seq(|chunks|, k requires 0 <= k < |chunks| => Body(sections[i], chunks[k]));
      && bodies == Pack(Split(content, ParagraphSep))
      && Join(bodies, ParagraphSep) == content
      && Flatten(SplitEach(bodies)) == Split(content, ParagraphSep)
      && (forall k :: 0 <= k < |bodies| && |Split(bodies[k], ParagraphSep)| >= 2 ==>
            |bodies[k]| <= ChunkLimit + 2)
  {
    var content := Strip(SectionContent(text, sections, i).value);
    var paras := Split(content, ParagraphSep);
    var chunks := ChunksOfSection(text, sections, i);
    assert chunks == SectionChunksFor(sections[i], Pack(paras));
    BodiesOf(sections[i], Pack(paras));
    PackOfContent(content);
  }

  /** The bodies of the chunks made under one title are the given bodies. */
  lemma BodiesOf(title: string, bodies: seq<string>)
    ensures var chunks := SectionChunksFor(title, bodies);
      seq(|chunks|, k requires 0 <= k < |chunks| => Body(title, chunks[k])) == bodies
  {
  }

  /** Packing the paragraphs of stripped content keeps its text, its paragraphs and the size bound. */
  lemma PackOfContent(content: string)
    requires content == "" || !IsSpace(content[|content| - 1])
    requires NoEmpty(Split(content, ParagraphSep))
    ensures var bodies := Pack(Split(content, ParagraphSep));
      && Join(bodies, ParagraphSep) == content
      && Flatten(SplitEach(bodies)) == Split(content, ParagraphSep)
      && (forall k :: 0 <= k < |bodies| && |Split(bodies[k], ParagraphSep)| >= 2 ==>
            |bodies[k]| <= ChunkLimit + 2)
  {
    var paras := Split(content, ParagraphSep);
    PackKeepsText(paras);
    SplitOfStrippedIsClean(content);
    PackSplitsBack(paras);
    PackBound(paras);
  }

  // ---------------------------------------------------------------------------------------
  // Paragraph mode (rag.py:205-241)
  // ---------------------------------------------------------------------------------------

  predicate NonEmptyString(s: string) {
    s != ""
  }

  /** `[p.strip() for p in text.split('\n\n') if p.strip()]`. */
  function ParagraphCandidates(text: string): seq<string> {
    Filter(StripAll(Split(text, ParagraphSep)), NonEmptyString)
  }

  /** Not too short, and no "Page" among the first 20 characters. */
  predicate KeptParagraph(para: string) {
    |para| >= MinParagraph && !Contains(para[..HeaderWindow], "Page")
  }

  /** The paragraphs paragraph mode packs, in order. */
  function KeptParagraphs(text: string): seq<string> {
    Filter(ParagraphCandidates(text), KeptParagraph)
  }

  /** A paragraph chunk, tagged with its running number. */
  function ParagraphChunk(body: string, n: nat): Chunk {
    Chunk(body, ParagraphTopic, Some(TextbookSource), Some("chunk_" + NatToString(n)))
  }

  function ParagraphChunksFor(bodies: seq<string>): seq<Chunk> {
    seq(|bodies|, k requires 0 <= k < |bodies| => ParagraphChunk(bodies[k], k))
  }

  function ParagraphChunks(text: string): seq<Chunk> {
    ParagraphChunksFor(Pack(KeptParagraphs(text)))
  }

  lemma ParagraphChunksForSnoc(bodies: seq<string>, body: string)
    ensures ParagraphChunksFor(bodies + [body]) == ParagraphChunksFor(bodies) + [ParagraphChunk(body, |bodies|)]
  {
  }

  lemma KeptStep(paragraphs: seq<string>, i: nat)
    requires i < |paragraphs|
    ensures Filter(paragraphs[..i + 1], KeptParagraph) ==
            Filter(paragraphs[..i], KeptParagraph) + (if KeptParagraph(paragraphs[i]) then [paragraphs[i]] else [])
  {
    assert paragraphs[..i + 1] == paragraphs[..i] + [paragraphs[i]];
    FilterSnoc(paragraphs[..i], paragraphs[i], KeptParagraph);
  }

  /** The filtering and greedy loop over the candidate paragraphs. */
  method PackParagraphs(paragraphs: seq<string>) returns (chunks: seq<Chunk>)
    ensures chunks == ParagraphChunksFor(Pack(Filter(paragraphs, KeptParagraph)))
  {
    chunks := [];
    var currentChunk := "";
    var chunkCount := 0;
    ghost var kept: seq<string> := [];
    for i := 0 to |paragraphs|
      invariant kept == Filter(paragraphs[..i], KeptParagraph)
      invariant chunks == ParagraphChunksFor(PackPrefix(kept).done)
      invariant currentChunk == PackPrefix(kept).current
      invariant chunkCount == |chunks|
    {
      var para := paragraphs[i];
      KeptStep(paragraphs, i);
      // Skip very short paragraphs or page headers
      if |para| < MinParagraph || Contains(para[..HeaderWindow], "Page") {
        continue;
      }
      PackPrefixSnoc(kept, para);
      if |currentChunk| + |para| > ChunkLimit && currentChunk != "" {
        ParagraphChunksForSnoc(PackPrefix(kept).done, currentChunk);
        chunks := chunks + [ParagraphChunk(currentChunk, chunkCount)];
        currentChunk := para;
        chunkCount := chunkCount + 1;
      } else {
        currentChunk := if currentChunk != "" then currentChunk + ParagraphSep + para else para;
      }
      kept := kept + [para];
    }
    assert paragraphs[..|paragraphs|] == paragraphs;
    if currentChunk != "" {
      ParagraphChunksForSnoc(PackPrefix(kept).done, currentChunk);
      chunks := chunks + [ParagraphChunk(currentChunk, chunkCount)];
    }
  }

  /** _create_paragraph_chunks. */
  method CreateParagraphChunks(text: string) returns (chunks: seq<Chunk>)
    ensures chunks == ParagraphChunks(text)
  {
    var paragraphs := ParagraphCandidates(text);
    chunks := PackParagraphs(paragraphs);
  }

  /** Each stripped piece of a split on blank lines is Clean, and stripping it again changes nothing. */
  lemma StrippedPiece(text: string, j: nat)
    requires j < |Split(text, ParagraphSep)|
    ensures var raw := Split(text, ParagraphSep)[j];
      Clean(Strip(raw), ParagraphSep) && Strip(Strip(raw)) == Strip(raw)
  {
    var parts := Split(text, ParagraphSep);
    if j < |parts| - 1 {
      CleanHasNoSep(parts[j], ParagraphSep);
    }
    StrippedIsClean(parts[j]);
    StripIdempotent(parts[j]);
  }

  /**
   * A kept paragraph passes the length and page-header test, is already stripped, is Clean,
   * and is the stripped form of a piece of the text's split on blank lines.
   */
  lemma KeptParagraphsSound(text: string)
    ensures forall p :: p in KeptParagraphs(text) ==>
              && KeptParagraph(p) && p == Strip(p) && Clean(p, ParagraphSep)
              && exists raw :: raw in Split(text, ParagraphSep) && p == Strip(raw)
  {
    var parts := Split(text, ParagraphSep);
    var stripped := StripAll(parts);
    FilterMembers(stripped, NonEmptyString);
    FilterMembers(ParagraphCandidates(text), KeptParagraph);
    forall p | p in KeptParagraphs(text)
      ensures p == Strip(p) && Clean(p, ParagraphSep)
      ensures exists raw :: raw in parts && p == Strip(raw)
    {
      assert p in stripped;
      var j :| 0 <= j < |stripped| && stripped[j] == p;
      StrippedPiece(text, j);
      assert parts[j] in parts;
    }
  }

  /** Every piece of the split whose stripped form passes the test is kept. */
  lemma KeptParagraphsComplete(text: string)
    ensures forall raw :: raw in Split(text, ParagraphSep) && KeptParagraph(Strip(raw)) ==>
              Strip(raw) in KeptParagraphs(text)
  {
    var parts := Split(text, ParagraphSep);
    var stripped := StripAll(parts);
    FilterMembers(stripped, NonEmptyString);
    FilterMembers(ParagraphCandidates(text), KeptParagraph);
    forall raw | raw in parts && KeptParagraph(Strip(raw))
      ensures Strip(raw) in KeptParagraphs(text)
    {
      var j :| 0 <= j < |parts| && parts[j] == raw;
      assert stripped[j] == Strip(raw);
      assert Strip(raw) in stripped;
    }
  }

  /** Stripping twice is stripping once. */
  lemma StripIdempotent(s: string)
    ensures Strip(Strip(s)) == Strip(s)
  {
    var r := Strip(s);
    if r != "" {
      assert StripStart(r) == 0;
      assert StripEnd(r) == |r|;
    }
  }

  /** The texts of a list of chunks. */
  function Texts(chunks: seq<Chunk>): seq<string> {
    seq(|chunks|, k requires 0 <= k < |chunks| => chunks[k].text)
  }

  /** The kept paragraphs are non-empty and Clean. */
  lemma KeptParagraphsPackable(text: string)
    ensures NoEmpty(KeptParagraphs(text)) && AllClean(KeptParagraphs(text))
  {
    var kept := KeptParagraphs(text);
    KeptParagraphsSound(text);
    forall i | 0 <= i < |kept| ensures kept[i] != "" && Clean(kept[i], ParagraphSep) {
      assert kept[i] in kept;
    }
  }

  /** The paragraph chunks of packable paragraphs split back into them, within the bound. */
  lemma PackedParagraphsRoundTrip(paras: seq<string>)
    requires NoEmpty(paras) && AllClean(paras)
    ensures Texts(ParagraphChunksFor(Pack(paras))) == Pack(paras)
    ensures Flatten(SplitEach(Texts(ParagraphChunksFor(Pack(paras))))) == paras
    ensures forall c :: c in ParagraphChunksFor(Pack(paras)) && |Split(c.text, ParagraphSep)| >= 2 ==>
              |c.text| <= ChunkLimit + 2
  {
    PackSplitsBack(paras);
    PackBound(paras);
    var bodies := Pack(paras);
    var chunks := ParagraphChunksFor(bodies);
    assert Texts(chunks) == bodies;
    forall c | c in chunks && |Split(c.text, ParagraphSep)| >= 2
      ensures |c.text| <= ChunkLimit + 2
    {
      var k :| 0 <= k < |chunks| && chunks[k] == c;
      assert c.text == bodies[k];
    }
  }

  /**
   * Splitting the emitted chunks on blank lines gives back exactly the kept paragraphs, in
   * order, with none lost. A chunk of two or more paragraphs is at most ChunkLimit + 2
   * characters.
   */
  lemma ParagraphChunksRoundTrip(text: string)
    ensures Texts(ParagraphChunks(text)) == Pack(KeptParagraphs(text))
    ensures Flatten(SplitEach(Texts(ParagraphChunks(text)))) == KeptParagraphs(text)
    ensures forall c :: c in ParagraphChunks(text) && |Split(c.text, ParagraphSep)| >= 2 ==>
              |c.text| <= ChunkLimit + 2
  {
    KeptParagraphsPackable(text);
    PackedParagraphsRoundTrip(KeptParagraphs(text));
  }

  /**
   * Every paragraph chunk is tagged textbook_content / pdf_valuation. The section tags run
   * chunk_0, chunk_1, ... and are pairwise distinct.
   */
  lemma ParagraphChunksTagged(bodies: seq<string>)
    ensures var chunks := ParagraphChunksFor(bodies);
      && (forall k :: 0 <= k < |chunks| ==>
            chunks[k].topic == "textbook_content" && chunks[k].source == Some("pdf_valuation")
            && chunks[k].section == Some("chunk_" + NatToString(k)))
      && (forall k, l :: 0 <= k < l < |chunks| ==> chunks[k].section != chunks[l].section)
  {
    var chunks := ParagraphChunksFor(bodies);
    forall k, l | 0 <= k < l < |chunks|
      ensures chunks[k].section != chunks[l].section
    {
      NatToStringInjective(k, l);
      assert ("chunk_" + NatToString(k))[6..] == NatToString(k);
      assert ("chunk_" + NatToString(l))[6..] == NatToString(l);
    }
  }

  /** No kept paragraph, no chunk. */
  lemma ParagraphChunksEmpty(text: string)
    requires KeptParagraphs(text) == []
    ensures ParagraphChunks(text) == []
  {
    PackEmpty();
  }

  // ---------------------------------------------------------------------------------------
  // The whole document (rag.py:72-105)
  // ---------------------------------------------------------------------------------------

  /** A textbook file: one that cannot be opened or parsed, or the extraction result of each page. */
  datatype PdfFile = Unreadable | Pages(pages: seq<Option<string>>)

  /** The chunks _process_pdf_textbook returns. */
  function TextbookChunks(pdf: PdfFile, leadIns: seq<Matcher>, titlePatterns: seq<Matcher>): seq<Chunk> {
    match pdf
    case Unreadable => []
    case Pages(pages) =>
      var fullText := AssembledText(pages);
      if Strip(fullText) == "" then []
      else
        var toc := CleanTitles(TocCandidates(fullText, leadIns, titlePatterns));
        if toc != [] then SectionChunks(fullText, toc) else ParagraphChunks(fullText)
  }

  /** _process_pdf_textbook. */
  method ProcessPdfTextbook(pdf: PdfFile, leadIns: seq<Matcher>, titlePatterns: seq<Matcher>)
    returns (chunks: seq<Chunk>)
    ensures chunks == TextbookChunks(pdf, leadIns, titlePatterns)
  {
    if pdf.Unreadable? {
      // open() or PdfReader raised
      return [];
    }
    var fullText := AssemblePages(pdf.pages);
    if Strip(fullText) == "" {
      return [];
    }
    var tocSections := ExtractTocSections(fullText, leadIns, titlePatterns);
    if tocSections != [] {
      chunks := CreateSectionChunks(fullText, tocSections);
    } else {
      chunks := CreateParagraphChunks(fullText);
    }
  }

  /** A document whose every page fails or is blank yields no chunk. */
  lemma NoTextNoChunks(pages: seq<Option<string>>, leadIns: seq<Matcher>, titlePatterns: seq<Matcher>)
    requires forall i :: 0 <= i < |pages| ==> !Contributes(pages[i])
    ensures TextbookChunks(Pages(pages), leadIns, titlePatterns) == []
  {
    AssembledBlankIff(pages);
  }

  /** Every textbook chunk carries the pdf_valuation source tag and one of the two textbook topics. */
  lemma TextbookChunksTagged(pdf: PdfFile, leadIns: seq<Matcher>, titlePatterns: seq<Matcher>)
    ensures forall c :: c in TextbookChunks(pdf, leadIns, titlePatterns) ==>
              c.source == Some("pdf_valuation") &&
              (c.topic == "textbook_section" || c.topic == "textbook_content")
  {
    if pdf.Pages? {
      var fullText := AssembledText(pdf.pages);
      if Strip(fullText) != "" {
        var toc := CleanTitles(TocCandidates(fullText, leadIns, titlePatterns));
        if toc != [] {
          assert TextbookChunks(pdf, leadIns, titlePatterns) == SectionChunks(fullText, toc);
        } else {
          ParagraphChunksTagged(Pack(KeptParagraphs(fullText)));
          assert TextbookChunks(pdf, leadIns, titlePatterns) == ParagraphChunks(fullText);
        }
      }
    }
  }
}
