/**
 * The retrieval half of FinancialRAG (rag.py:17-70). The knowledge base is five hardcoded
 * rules followed by the chunks of an optional textbook. A query ranks the chunks by
 * similarity with the question and keeps the best top_k of those scoring over 0.3.
 *
 * The sentence embedder and cosine similarity are outside the model. The constructor takes
 * the embedder as a function from a text to a vector. A query takes the similarity of the
 * question with each chunk, in chunk order.
 */
module Rag {
  import opened Wrappers
  import opened Text
  import opened RagChunking

  /** A chunk is returned only when its similarity exceeds this (rag.py:70). */
  const SimilarityFloor: real := 0.3

  function Rule(text: string, topic: string): Chunk {
    Chunk(text, topic, None, None)
  }

  const WorkingCapital: string := "working_capital"
  const DilutedShares: string := "diluted_shares"
  const Ebitda: string := "ebitda"
  const LeaseAnalysis: string := "lease_analysis"

  const ApDaysRule: string :=
    "For Accounts Payable Days: use AVERAGE accounts payable balance, not end-of-period. Formula: (Average AP / COGS) * 365"
  const DilutedSharesRule: string :=
    "Diluted shares = Basic shares + dilutive securities (options, warrants, convertibles). Only include if dilutive (exercise price < current price)."
  const EbitdaRule: string :=
    "EBITDA adjustments: Add back operating lease costs under new accounting standards (ASC 842). Operating leases are now capitalized."
  const VariableLeaseRule: string :=
    "Variable lease assets estimation: If not stated, assume ratio of variable lease assets to operating lease assets equals ratio of variable lease costs to total operating lease costs."
  const WorkingCashRule: string :=
    "Working cash assumption: Use 2% of revenue when specific working cash requirements not provided. Take minimum of total cash or calculated amount."

  /** _get_financial_rules: the five hardcoded calculation rules, in order, with no source or section. */
  function FinancialRules(): (rules: seq<Chunk>)
    ensures |rules| == 5
    ensures forall i :: 0 <= i < 5 ==> rules[i].source.None? && rules[i].section.None?
    ensures rules[0].topic == rules[4].topic == WorkingCapital
    ensures rules[1].topic == DilutedShares && rules[2].topic == Ebitda && rules[3].topic == LeaseAnalysis
  {
    [ Rule(ApDaysRule, WorkingCapital),
      Rule(DilutedSharesRule, DilutedShares),
      Rule(EbitdaRule, Ebitda),
      Rule(VariableLeaseRule, LeaseAnalysis),
      Rule(WorkingCashRule, WorkingCapital) ]
  }

  // ---------------------------------------------------------------------------------------
  // Ranking (np.argsort)
  // ---------------------------------------------------------------------------------------

  /**
   * order is an ascending argsort of scores: it lists every index of scores once, lowest
   * score first. np.argsort leaves the order of equal scores unspecified, so the query
   * lemmas below hold for every such order.
   */
  predicate IsArgsort(scores: seq<real>, order: seq<nat>) {
    && |order| == |scores|
    && (forall i :: 0 <= i < |order| ==> order[i] < |scores|)
    && (forall x :: 0 <= x < |scores| ==> x in order)
    && (forall i, j :: 0 <= i < j < |order| ==> order[i] != order[j])
    && (forall i, j :: 0 <= i < j < |order| ==> scores[order[i]] <= scores[order[j]])
  }

  /** Where index x goes in an ascending order: after every index scoring no more than it. */
  function InsertPos(scores: seq<real>, sorted: seq<nat>, x: nat, k: nat): (p: nat)
    requires x < |scores| && k <= |sorted|
    requires forall i :: 0 <= i < |sorted| ==> sorted[i] < |scores|
    ensures k <= p <= |sorted|
    ensures forall i :: k <= i < p ==> scores[sorted[i]] <= scores[x]
    ensures p < |sorted| ==> scores[x] < scores[sorted[p]]
    decreases |sorted| - k
  {
    if k == |sorted| || scores[x] < scores[sorted[k]] then k else InsertPos(scores, sorted, x, k + 1)
  }

  predicate Ascending(scores: seq<real>, order: seq<nat>)
    requires forall i :: 0 <= i < |order| ==> order[i] < |scores|
  {
    forall i, j :: 0 <= i < j < |order| ==> scores[order[i]] <= scores[order[j]]
  }

  predicate Distinct(order: seq<nat>) {
    forall i, j :: 0 <= i < j < |order| ==> order[i] != order[j]
  }

  /** order with x inserted after every index scoring no more than x. */
  function Insert(scores: seq<real>, sorted: seq<nat>, x: nat): (r: seq<nat>)
    requires x < |scores|
    requires forall i :: 0 <= i < |sorted| ==> sorted[i] < |scores|
    ensures |r| == |sorted| + 1 && forall i :: 0 <= i < |r| ==> r[i] < |scores|
  {
    var p := InsertPos(scores, sorted, x, 0);
    var r := sorted[..p] + [x] + sorted[p..];
    assert forall i :: 0 <= i < |r| ==> r[i] == (if i < p then sorted[i] else if i == p then x else sorted[i - 1]);
    r
  }

  /** Inserting adds x and keeps every other element. */
  lemma InsertMembers(scores: seq<real>, sorted: seq<nat>, x: nat)
    requires x < |scores|
    requires forall i :: 0 <= i < |sorted| ==> sorted[i] < |scores|
    ensures forall y :: y in Insert(scores, sorted, x) <==> y == x || y in sorted
  {
    var p := InsertPos(scores, sorted, x, 0);
    assert sorted == sorted[..p] + sorted[p..];
  }

  /** Inserting a new index into a list without repetition gives a list without repetition. */
  lemma InsertDistinct(scores: seq<real>, sorted: seq<nat>, x: nat)
    requires x < |scores|
    requires forall i :: 0 <= i < |sorted| ==> sorted[i] < |scores|
    requires Distinct(sorted) && x !in sorted
    ensures Distinct(Insert(scores, sorted, x))
  {
    var p := InsertPos(scores, sorted, x, 0);
    var r := Insert(scores, sorted, x);
    assert forall i :: 0 <= i < |r| ==> r[i] == (if i < p then sorted[i] else if i == p then x else sorted[i - 1]);
  }

  /** Inserting into an ascending order keeps it ascending. */
  lemma InsertAscending(scores: seq<real>, sorted: seq<nat>, x: nat)
    requires x < |scores|
    requires forall i :: 0 <= i < |sorted| ==> sorted[i] < |scores|
    requires Ascending(scores, sorted)
    ensures Ascending(scores, Insert(scores, sorted, x))
  {
    var p := InsertPos(scores, sorted, x, 0);
    var r := Insert(scores, sorted, x);
    assert forall i :: 0 <= i < |r| ==> r[i] == (if i < p then sorted[i] else if i == p then x else sorted[i - 1]);
    forall i, j | 0 <= i < j < |r|
      ensures scores[r[i]] <= scores[r[j]]
    {
      if j <= p {
      } else if i < p {
        assert scores[sorted[i]] <= scores[sorted[p]];
      } else if i == p {
        assert scores[sorted[p]] <= scores[sorted[j - 1]];
      }
    }
  }

  /** The indices below n sorted by score: insertion sort, stable on equal scores. */
  function ArgSortUpTo(scores: seq<real>, n: nat): (order: seq<nat>)
    requires n <= |scores|
    ensures |order| == n && forall i :: 0 <= i < n ==> order[i] < n
    decreases n
  {
    if n == 0 then []
    else
      var init := ArgSortUpTo(scores, n - 1);
      var r := Insert(scores, init, n - 1);
      InsertMembers(scores, init, n - 1);
      assert forall i :: 0 <= i < n ==> r[i] in r;
      r
  }

  function ArgSort(scores: seq<real>): seq<nat> {
    ArgSortUpTo(scores, |scores|)
  }

  /** The insertion sort lists each index below n once, in ascending score order. */
  lemma {:induction false} ArgSortUpToSorted(scores: seq<real>, n: nat)
    requires n <= |scores|
    ensures forall x :: 0 <= x < n ==> x in ArgSortUpTo(scores, n)
    ensures Distinct(ArgSortUpTo(scores, n))
    ensures Ascending(scores, ArgSortUpTo(scores, n))
    decreases n
  {
    if n > 0 {
      ArgSortUpToSorted(scores, n - 1);
      var init := ArgSortUpTo(scores, n - 1);
      assert ArgSortUpTo(scores, n) == Insert(scores, init, n - 1);
      InsertNext(scores, init, n - 1);
    }
  }

  /** Inserting index m into a sorted listing of the indices below m lists those below m + 1. */
  lemma InsertNext(scores: seq<real>, init: seq<nat>, m: nat)
    requires m < |scores| && |init| == m && forall i :: 0 <= i < m ==> init[i] < m
    requires forall x :: 0 <= x < m ==> x in init
    requires Distinct(init) && Ascending(scores, init)
    ensures forall x :: 0 <= x < m + 1 ==> x in Insert(scores, init, m)
    ensures Distinct(Insert(scores, init, m))
    ensures Ascending(scores, Insert(scores, init, m))
  {
    assert m !in init;
    InsertMembers(scores, init, m);
    InsertDistinct(scores, init, m);
    InsertAscending(scores, init, m);
  }

  lemma ArgSortIsArgsort(scores: seq<real>)
    ensures IsArgsort(scores, ArgSort(scores))
  {
    var order := ArgSort(scores);
    assert order == ArgSortUpTo(scores, |scores|);
    ArgSortUpToSorted(scores, |scores|);
  }

  // ---------------------------------------------------------------------------------------
  // Top-k selection (rag.py:66-70)
  // ---------------------------------------------------------------------------------------

  /** Where the Python slice `order[-top_k:]` starts, for a list of n elements. */
  function PySliceStart(n: nat, topK: int): (start: nat)
    ensures start <= n
    ensures topK > 0 ==> n - start == Min(topK, n)
  {
    if topK > 0 then (if topK <= n then n - topK else 0)   // the last top_k
    else if -topK <= n then -topK                           // -0 is 0: the whole list; else drops the first -top_k
    else n
  }

  function Reverse<T>(s: seq<T>): (r: seq<T>)
    ensures |r| == |s| && forall i :: 0 <= i < |s| ==> r[i] == s[|s| - 1 - i]
  {
    seq(|s|, i requires 0 <= i < |s| => s[|s| - 1 - i])
  }

  predicate AboveFloor(scores: seq<real>, idx: nat) {
    idx < |scores| && scores[idx] > SimilarityFloor
  }

  function KeepAbove(scores: seq<real>): nat -> bool {
    (idx: nat) => AboveFloor(scores, idx)
  }

  /** The part of the order the slice keeps. */
  function Window(order: seq<nat>, topK: int): seq<nat> {
    order[PySliceStart(|order|, topK)..]
  }

  /** `[idx for idx in order[-top_k:][::-1] if scores[idx] > 0.3]`. */
  function SelectTopK(scores: seq<real>, order: seq<nat>, topK: int): seq<nat> {
    Filter(Reverse(Window(order, topK)), KeepAbove(scores))
  }

  /** The selection holds exactly the indices of the window scoring over the floor. */
  lemma SelectTopKMembers(scores: seq<real>, order: seq<nat>, topK: int)
    ensures forall x :: x in SelectTopK(scores, order, topK) <==> x in Window(order, topK) && AboveFloor(scores, x)
  {
    var w := Window(order, topK);
    var rw := Reverse(w);
    FilterMembers(rw, KeepAbove(scores));
    forall x ensures x in rw <==> x in w {
      if x in w {
        var k :| 0 <= k < |w| && w[k] == x;
        assert rw[|w| - 1 - k] == x;
      }
    }
  }

  /** At most top_k indices come back, when top_k is positive; never more than there are chunks. */
  lemma SelectTopKSize(scores: seq<real>, order: seq<nat>, topK: int)
    ensures |SelectTopK(scores, order, topK)| <= |order|
    ensures topK >= 1 ==> |SelectTopK(scores, order, topK)| <= topK
  {
  }

  /** Every index returned is a chunk index whose score exceeds 0.3. */
  lemma SelectTopKAboveFloor(scores: seq<real>, order: seq<nat>, topK: int)
    ensures var r := SelectTopK(scores, order, topK);
      forall i :: 0 <= i < |r| ==> r[i] < |scores| && scores[r[i]] > 0.3
  {
    var r := SelectTopK(scores, order, topK);
    SelectTopKMembers(scores, order, topK);
    forall i | 0 <= i < |r| ensures r[i] < |scores| && scores[r[i]] > 0.3 {
      assert r[i] in r;
    }
  }

  /** With a true argsort, no index comes back twice and the best come first. */
  lemma SelectTopKDescending(scores: seq<real>, order: seq<nat>, topK: int)
    requires IsArgsort(scores, order)
    ensures var r := SelectTopK(scores, order, topK);
      && (forall i :: 0 <= i < |r| ==> r[i] < |scores|)
      && (forall i, j :: 0 <= i < j < |r| ==> r[i] != r[j])
      && (forall i, j :: 0 <= i < j < |r| ==> scores[r[i]] >= scores[r[j]])
  {
    SelectTopKAboveFloor(scores, order, topK);
    var rw := Reverse(Window(order, topK));
    var keep := KeepAbove(scores);
    var r := Filter(rw, keep);
    var distinct := (a: nat, b: nat) => a != b;
    var descending := (a: nat, b: nat) => a < |scores| && b < |scores| && scores[a] >= scores[b];
    FilterPairwise(rw, keep, distinct);
    FilterPairwise(rw, keep, descending);
    assert forall i, j :: 0 <= i < j < |r| ==> distinct(r[i], r[j]);
    assert forall i, j :: 0 <= i < j < |r| ==> descending(r[i], r[j]);
  }

  /**
   * With a true argsort, a chunk scoring strictly higher than a returned chunk is returned
   * too: the selection is never beaten by a chunk it leaves out.
   */
  lemma SelectTopKBest(scores: seq<real>, order: seq<nat>, topK: int)
    requires IsArgsort(scores, order)
    ensures var r := SelectTopK(scores, order, topK);
      forall j, x :: 0 <= j < |scores| && x in r && x < |scores| && scores[j] > scores[x] ==> j in r
  {
    var r := SelectTopK(scores, order, topK);
    var start := PySliceStart(|order|, topK);
    var w := Window(order, topK);
    SelectTopKMembers(scores, order, topK);
    forall j, x | 0 <= j < |scores| && x in r && x < |scores| && scores[j] > scores[x]
      ensures j in r
    {
      assert j in order;
      var p :| 0 <= p < |order| && order[p] == j;
      var q :| 0 <= q < |w| && w[q] == x;
      assert order[start + q] == x;
      assert start <= p;
      assert w[p - start] == j;
    }
  }

  /** With top_k = 0 or top_k at least the number of chunks, every chunk scoring over 0.3 comes back. */
  lemma SelectTopKAll(scores: seq<real>, order: seq<nat>, topK: int)
    requires IsArgsort(scores, order)
    requires topK == 0 || topK >= |scores|
    ensures forall j :: 0 <= j < |scores| ==> (j in SelectTopK(scores, order, topK) <==> scores[j] > 0.3)
  {
    SelectTopKMembers(scores, order, topK);
    assert Window(order, topK) == order;
  }

  // ---------------------------------------------------------------------------------------
  // The knowledge base
  // ---------------------------------------------------------------------------------------

  /** The chunks at the given indices, in that order. */
  function ChunksAt(chunks: seq<Chunk>, indices: seq<nat>): (r: seq<Chunk>)
    requires forall i :: 0 <= i < |indices| ==> indices[i] < |chunks|
    ensures |r| == |indices| && forall i :: 0 <= i < |r| ==> r[i] == chunks[indices[i]]
  {
    seq(|indices|, i requires 0 <= i < |indices| => chunks[indices[i]])
  }

  function EncodeAll(encode: string -> seq<real>, chunks: seq<Chunk>): (embeddings: seq<seq<real>>)
    ensures |embeddings| == |chunks|
    ensures forall i :: 0 <= i < |chunks| ==> embeddings[i] == encode(chunks[i].text)
  {
    seq(|chunks|, i requires 0 <= i < |chunks| => encode(chunks[i].text))
  }

  /**
   * The knowledge chunks at start-up: the rules, then the textbook's chunks when a textbook
   * path was given and the file exists. None stands for a missing path or file.
   */
  function InitialChunks(textbook: Option<PdfFile>, leadIns: seq<Matcher>, titlePatterns: seq<Matcher>): seq<Chunk> {
    FinancialRules() + (if textbook.Some? then TextbookChunks(textbook.value, leadIns, titlePatterns) else [])
  }

  class FinancialRag {
    var knowledgeChunks: seq<Chunk>
    var chunkEmbeddings: seq<seq<real>>

    /** One embedding per chunk. */
    predicate Valid()
      reads this
    {
      |chunkEmbeddings| == |knowledgeChunks|
    }

    /** __init__. */
    constructor (textbook: Option<PdfFile>, encode: string -> seq<real>, leadIns: seq<Matcher>, titlePatterns: seq<Matcher>)
      ensures Valid()
      ensures knowledgeChunks == InitialChunks(textbook, leadIns, titlePatterns)
      ensures knowledgeChunks[..5] == FinancialRules()
      ensures textbook.None? ==> knowledgeChunks == FinancialRules()
      ensures chunkEmbeddings == EncodeAll(encode, knowledgeChunks)
    {
      var chunks := FinancialRules();
      if textbook.Some? {
        var pdfChunks := ProcessPdfTextbook(textbook.value, leadIns, titlePatterns);
        chunks := chunks + pdfChunks;
      }
      knowledgeChunks := chunks;
      chunkEmbeddings := EncodeAll(encode, chunks);
    }

    /** query: the best top_k chunks scoring over 0.3, best first. similarities[i] is the score of embedding row i, that is of chunk i. */
    function Query(similarities: seq<real>, topK: int): (r: seq<Chunk>)
      reads this
      requires Valid() && |similarities| == |chunkEmbeddings|
      ensures topK >= 1 ==> |r| <= topK
      ensures |r| <= |knowledgeChunks|
      ensures forall c :: c in r ==> c in knowledgeChunks
    {
      var order := ArgSort(similarities);
      var selected := SelectTopK(similarities, order, topK);
      SelectTopKSize(similarities, order, topK);
      SelectTopKAboveFloor(similarities, order, topK);
      ChunksAt(knowledgeChunks, selected)
    }
  }

  /**
   * What a query returns, in terms of the chunk scores: chunks met by scores over 0.3, no
   * chunk twice, in descending score order, and no chunk left out that beats a returned one.
   */
  lemma QueryRanked(rag: FinancialRag, similarities: seq<real>, topK: int)
    requires rag.Valid() && |similarities| == |rag.chunkEmbeddings|
    ensures var order := ArgSort(similarities);
      var selected := SelectTopK(similarities, order, topK);
      && (forall i :: 0 <= i < |selected| ==> selected[i] < |similarities| && similarities[selected[i]] > 0.3)
      && rag.Query(similarities, topK) == ChunksAt(rag.knowledgeChunks, selected)
      && (forall i, j :: 0 <= i < j < |selected| ==>
            selected[i] != selected[j] && similarities[selected[i]] >= similarities[selected[j]])
      && (forall j, x :: 0 <= j < |similarities| && x in selected && x < |similarities| && similarities[j] > similarities[x] ==>
            j in selected)
  {
    var order := ArgSort(similarities);
    ArgSortIsArgsort(similarities);
    SelectTopKAboveFloor(similarities, order, topK);
    SelectTopKDescending(similarities, order, topK);
    SelectTopKBest(similarities, order, topK);
  }
}
