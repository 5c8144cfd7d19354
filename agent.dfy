/**
 * FinanceQAAgent (agent.py): how a question is typed from its CSV row, when the retrieval
 * layer is consulted, how the fields of the answer record are read out of the model's
 * reply, and the error record that replaces them when the call fails.
 *
 * The language model is modelled by the outcome of each attempt of the retried call. The
 * similarity of the question to each knowledge chunk is a parameter, as in Rag.Query. The
 * ASSUMPTIONS: search is a parameter too (assumptionsOf), since its pattern hinges on regex
 * lookahead details that no other field depends on.
 */
module Agent {
  import opened Wrappers
  import opened Text
  import opened RagChunking
  import opened Rag
  import opened Utils
  import opened Evaluator

  const BasicTactical: string := "basic_tactical"
  const Conceptual: string := "conceptual"
  const ErrorType: string := "error"
  /** The retrieval depth answer_question asks for. */
  const AgentTopK: int := 5
  const AnswerConfidence: real := 0.8
  const ErrorConfidence: real := 0.0
  const ClassificationMarker: string := "CLASSIFICATION:"
  const FinalAnswerMarker: string := "FINAL ANSWER:"
  const ErrorPrefix: string := "Error: "
  const ProcessingFailedPrefix: string := "Processing failed: "

  // ---------------------------------------------------------------------------------------
  // Question data (evaluate_on_dataset, before the fan-out)
  // ---------------------------------------------------------------------------------------

  /** A dataset row: its DataFrame index, question, context (None for a missing or NaN cell) and answer. */
  datatype Row = Row(index: nat, question: string, context: Option<string>, answer: string)

  datatype QuestionData = QuestionData(questionId: string, question: string, context: string, expected: string, qType: string)

  /** The stored question type: basic_tactical when the context has a non-whitespace character. */
  function QuestionType(context: string): (t: string)
    ensures t == BasicTactical <==> !IsBlank(context)
    ensures t == Conceptual <==> IsBlank(context)
  {
    if Strip(context) != "" then BasicTactical else Conceptual
  }

  /** A missing or NaN context cell becomes the empty context. */
  function ContextOf(row: Row): string {
    if row.context.Some? then row.context.value else ""
  }

  function QuestionId(index: nat): string {
    "q_" + NatToString(index)
  }

  function Prepared(row: Row): QuestionData {
    var context := ContextOf(row);
    QuestionData(QuestionId(row.index), row.question, context, row.answer, QuestionType(context))
  }

  /** The question_data list: one record per row, in row order. */
  method PrepareQuestions(rows: seq<Row>) returns (data: seq<QuestionData>)
    ensures |data| == |rows|
    ensures forall i :: 0 <= i < |rows| ==> data[i] == Prepared(rows[i])
  {
    data := [];
    for i := 0 to |rows|
      invariant |data| == i
      invariant forall k :: 0 <= k < i ==> data[k] == Prepared(rows[k])
    {
      var row := rows[i];
      var context := if row.context.Some? then row.context.value else "";
      var qType := if Strip(context) != "" then BasicTactical else Conceptual;
      data := data + [QuestionData("q_" + NatToString(row.index), row.question, context, row.answer, qType)];
    }
  }

  /** A row is basic_tactical exactly when its context cell is present and not blank. */
  lemma PreparedType(row: Row)
    ensures Prepared(row).qType == BasicTactical <==> row.context.Some? && !IsBlank(row.context.value)
    ensures Prepared(row).qType == Conceptual <==> row.context.None? || IsBlank(row.context.value)
  {
  }

  /** Rows with distinct DataFrame indices get distinct question ids. */
  lemma QuestionIdsDistinct(m: nat, n: nat)
    requires m != n
    ensures QuestionId(m) != QuestionId(n)
  {
    NatToStringInjective(m, n);
    assert QuestionId(m)[2..] == NatToString(m);
    assert QuestionId(n)[2..] == NatToString(n);
  }

  // ---------------------------------------------------------------------------------------
  // CLASSIFICATION: the model's own label
  // ---------------------------------------------------------------------------------------

  /** The regex class \w, ASCII part. */
  predicate IsWordChar(c: char) {
    'a' <= c <= 'z' || 'A' <= c <= 'Z' || '0' <= c <= '9' || c == '_'
  }

  /** The end of the run of word characters that starts at i. */
  function WordEnd(s: string, i: nat): (k: nat)
    requires i <= |s|
    ensures i <= k <= |s|
    ensures forall j :: i <= j < k ==> IsWordChar(s[j])
    ensures k < |s| ==> !IsWordChar(s[k])
    decreases |s| - i
  {
    if i == |s| || !IsWordChar(s[i]) then i else WordEnd(s, i + 1)
  }

  /** A word run ends where the first non-word character after it stands. */
  lemma {:induction false} WordEndAt(s: string, i: nat, k: nat)
    requires i <= k <= |s|
    requires forall j :: i <= j < k ==> IsWordChar(s[j])
    requires k < |s| ==> !IsWordChar(s[k])
    ensures WordEnd(s, i) == k
    decreases k - i
  {
    if i < k {
      WordEndAt(s, i + 1, k);
    }
  }

  /**
   * group(1) of re.search(r'CLASSIFICATION:\s*(\w+)', s, re.IGNORECASE), looking at
   * occurrences of the label from index i on. \s and \w share no character, so the label
   * matches at an occurrence exactly when a word character follows the whitespace after it,
   * and the group is the whole word run there.
   */
  function ClassificationFrom(s: string, i: nat): (g: Option<string>)
    ensures g.Some? ==> g.value != "" && forall k :: 0 <= k < |g.value| ==> IsWordChar(g.value[k])
    decreases |s| - i
  {
    match FindFrom(s, ClassificationMarker, true, i)
    case None => None
    case Some(p) =>
      var j := SkipSpaces(s, p + |ClassificationMarker|);
      if j < |s| && IsWordChar(s[j]) then Some(s[j..WordEnd(s, j)])
      else ClassificationFrom(s, p + 1)
  }

  /** The question type the reply states, lower-cased, or basic_tactical without a label. */
  function ReplyType(reply: string): string {
    match ClassificationFrom(reply, 0)
    case Some(w) => LowerAll(w)
    case None => BasicTactical
  }

  /** Without a CLASSIFICATION: label, in any case, the reply's type is basic_tactical. */
  lemma ReplyTypeDefault(reply: string)
    requires Find(reply, ClassificationMarker, true).None?
    ensures ReplyType(reply) == BasicTactical
  {
  }

  /** A text that opens with a pattern matches it at 0, case ignored. */
  lemma OpensWith(marker: string, rest: string)
    ensures MatchesAt(marker + rest, 0, marker, true)
  {
    var s := marker + rest;
    forall j | 0 <= j < |marker| ensures SameChar(s[j], marker[j], true) {
      assert s[j] == marker[j];
    }
  }

  /** A reply opening with "CLASSIFICATION: " and a word has that word, lower-cased, as its type. */
  lemma ReplyTypeLabel(w: string, rest: string)
    requires w != "" && forall k :: 0 <= k < |w| ==> IsWordChar(w[k])
    requires rest == "" || !IsWordChar(rest[0])
    ensures ReplyType(ClassificationMarker + " " + w + rest) == LowerAll(w)
  {
    var s := ClassificationMarker + " " + w + rest;
    LabelFirst(s, " " + w + rest);
    WordLayout(w, rest);
    WordAt(s, |ClassificationMarker|, w);
    TypeFromGroup(s, w);
  }

  /** A reply that opens with the label finds it at 0. */
  lemma LabelFirst(s: string, tail: string)
    requires s == ClassificationMarker + tail
    ensures FindFrom(s, ClassificationMarker, true, 0) == Some(0)
  {
    OpensWith(ClassificationMarker, tail);
    FoundAtStart(s, ClassificationMarker, true);
  }

  /** The label at 0, then one space and the word w: the type is w, lower-cased. */
  lemma TypeFromGroup(s: string, w: string)
    requires FindFrom(s, ClassificationMarker, true, 0) == Some(0)
    requires var m := |ClassificationMarker|;
      SkipSpaces(s, m) == m + 1 && m + 1 < |s| && IsWordChar(s[m + 1]) && s[m + 1..WordEnd(s, m + 1)] == w
    ensures ReplyType(s) == LowerAll(w)
  {
    assert ClassificationFrom(s, 0) == Some(w);
  }

  /** Where the parts of label + " " + w + rest sit. */
  lemma WordLayout(w: string, rest: string)
    requires w != "" && (rest == "" || !IsWordChar(rest[0]))
    ensures var s, m := ClassificationMarker + " " + w + rest, |ClassificationMarker|;
      && m + 1 + |w| <= |s| && s[m] == ' ' && s[m + 1..m + 1 + |w|] == w
      && (m + 1 + |w| < |s| ==> !IsWordChar(s[m + 1 + |w|]))
  {
    var s, m := ClassificationMarker + " " + w + rest, |ClassificationMarker|;
    assert s == ClassificationMarker + ([' '] + w) + rest;
    if m + 1 + |w| < |s| {
      assert s[m + 1 + |w|] == rest[0];
    }
  }

  /** A label ending at m, then one space and a word run w: the group is w. */
  lemma WordAt(s: string, m: nat, w: string)
    requires m + 1 + |w| <= |s| && s[m] == ' ' && s[m + 1..m + 1 + |w|] == w
    requires w != "" && forall k :: 0 <= k < |w| ==> IsWordChar(w[k])
    requires m + 1 + |w| < |s| ==> !IsWordChar(s[m + 1 + |w|])
    ensures SkipSpaces(s, m) == m + 1 && m + 1 < |s| && IsWordChar(s[m + 1])
    ensures s[m + 1..WordEnd(s, m + 1)] == w
  {
    assert s[m + 1] == w[0];
    forall j | m + 1 <= j < m + 1 + |w| ensures IsWordChar(s[j]) {
      assert s[j] == w[j - m - 1];
    }
    WordEndAt(s, m + 1, m + 1 + |w|);
  }

  // ---------------------------------------------------------------------------------------
  // FINAL ANSWER: the answer field
  // ---------------------------------------------------------------------------------------

  /** The first newline at or after i, or |s|. */
  function LineEnd(s: string, i: nat): (k: nat)
    requires i <= |s|
    ensures i <= k <= |s|
    ensures forall j :: i <= j < k ==> s[j] != '\n'
    ensures k < |s| ==> s[k] == '\n'
    decreases |s| - i
  {
    if i == |s| || s[i] == '\n' then i else LineEnd(s, i + 1)
  }

  lemma {:induction false} LineEndAt(s: string, i: nat, k: nat)
    requires i <= k <= |s|
    requires forall j :: i <= j < k ==> s[j] != '\n'
    requires k < |s| ==> s[k] == '\n'
    ensures LineEnd(s, i) == k
    decreases k - i
  {
    if i < k {
      LineEndAt(s, i + 1, k);
    }
  }

  /** The last index in [lo, hi) that does not hold a newline. */
  function LastNonNewline(s: string, lo: nat, hi: nat): (e: Option<nat>)
    requires lo <= hi <= |s|
    ensures e.Some? ==> lo <= e.value < hi && s[e.value] != '\n' && forall j :: e.value < j < hi ==> s[j] == '\n'
    ensures e.None? ==> forall j :: lo <= j < hi ==> s[j] == '\n'
    decreases hi
  {
    if hi == lo then None
    else if s[hi - 1] != '\n' then Some(hi - 1)
    else LastNonNewline(s, lo, hi - 1)
  }

  /**
   * group(1) of re.search(r'FINAL ANSWER:\s*(.+?)(?:\n|$)', s, re.IGNORECASE), looking at
   * occurrences of the label from index i on. `.` stops at a newline, so after the greedy
   * whitespace run the group is the rest of that line. When the whitespace runs to the end
   * of the text, the regex backtracks into it: the group is then its last character that is
   * not a newline, and without one the label does not match there.
   */
  function FinalAnswerFrom(s: string, i: nat): (g: Option<string>)
    ensures g.Some? ==> g.value != "" && forall k :: 0 <= k < |g.value| ==> g.value[k] != '\n'
    decreases |s| - i
  {
    match FindFrom(s, FinalAnswerMarker, true, i)
    case None => None
    case Some(p) =>
      var q := p + |FinalAnswerMarker|;
      var k := SkipSpaces(s, q);
      if k < |s| then Some(s[k..LineEnd(s, k)])
      else
        match LastNonNewline(s, q, k)
        case Some(e) => Some(s[e..e + 1])
        case None => FinalAnswerFrom(s, p + 1)
  }

  /** The answer field: the FINAL ANSWER: group, stripped, or else the reply's last line, stripped. */
  function AnswerOf(reply: string): string {
    match FinalAnswerFrom(reply, 0)
    case Some(g) => Strip(g)
    case None => Strip(Last(Split(reply, Newline)))
  }

  /**
   * Without a FINAL ANSWER: label the answer is the reply's last line, stripped: the reply
   * ends with that line, which holds no newline and follows the reply's last newline.
   */
  lemma AnswerFallback(reply: string)
    requires Find(reply, FinalAnswerMarker, true).None?
    ensures var line := Last(Split(reply, Newline));
      && AnswerOf(reply) == Strip(line)
      && HasNoNewline(line)
      && EndsWith(reply, line)
      && (|line| < |reply| ==> reply[|reply| - |line| - 1] == '\n')
  {
    var parts := Split(reply, Newline);
    var n := |parts|;
    var init, line := parts[..n - 1], parts[n - 1];
    assert parts == init + [line];
    if n == 1 {
      assert reply == line;
    } else {
      JoinSnoc(init, line, Newline);
      assert reply == Join(init, Newline) + Newline + line;
      assert reply[|reply| - |line|..] == line;
    }
  }

  /**
   * A reply whose first FINAL ANSWER: label is followed by a space and a line of text has
   * that line, stripped, as its answer, whatever precedes the label or follows the line.
   */
  lemma AnswerLabel(pre: string, ans: string, rest: string)
    requires Find(pre + FinalAnswerMarker + " " + ans + rest, FinalAnswerMarker, true) == Some(|pre|)
    requires ans != "" && !IsSpace(ans[0]) && HasNoNewline(ans)
    requires rest == "" || rest[0] == '\n'
    ensures AnswerOf(pre + FinalAnswerMarker + " " + ans + rest) == Strip(ans)
  {
    var s := pre + FinalAnswerMarker + " " + ans + rest;
    var q := |pre| + |FinalAnswerMarker|;
    NoNewlineChars(ans);
    AnswerLayout(pre, ans, rest);
    AnswerAt(s, q, ans);
  }

  /** Where the parts of pre + label + " " + ans + rest sit. */
  lemma AnswerLayout(pre: string, ans: string, rest: string)
    requires ans != "" && (rest == "" || rest[0] == '\n')
    ensures var s, q := pre + FinalAnswerMarker + " " + ans + rest, |pre| + |FinalAnswerMarker|;
      && q + 1 + |ans| <= |s| && s[q] == ' ' && s[q + 1..q + 1 + |ans|] == ans
      && (q + 1 + |ans| < |s| ==> s[q + 1 + |ans|] == '\n')
  {
    var s, q := pre + FinalAnswerMarker + " " + ans + rest, |pre| + |FinalAnswerMarker|;
    assert s == (pre + FinalAnswerMarker) + ([' '] + ans) + rest;
    if q + 1 + |ans| < |s| {
      assert s[q + 1 + |ans|] == rest[0];
    }
  }

  /** A label ending at q, then one space and a line ans: the group is ans. */
  lemma AnswerAt(s: string, q: nat, ans: string)
    requires q + 1 + |ans| <= |s| && s[q] == ' ' && s[q + 1..q + 1 + |ans|] == ans
    requires ans != "" && !IsSpace(ans[0]) && forall k :: 0 <= k < |ans| ==> ans[k] != '\n'
    requires q + 1 + |ans| < |s| ==> s[q + 1 + |ans|] == '\n'
    ensures SkipSpaces(s, q) == q + 1 && q + 1 < |s|
    ensures LineEnd(s, q + 1) == q + 1 + |ans|
    ensures s[q + 1..LineEnd(s, q + 1)] == ans
  {
    assert s[q + 1] == ans[0];
    forall j | q + 1 <= j < q + 1 + |ans| ensures s[j] != '\n' {
      assert s[j] == ans[j - q - 1];
    }
    LineEndAt(s, q + 1, q + 1 + |ans|);
  }

  // ---------------------------------------------------------------------------------------
  // answer_question
  // ---------------------------------------------------------------------------------------

  /** The dictionary answer_question returns. */
  datatype AgentResponse = AgentResponse(
    answer: string,
    fullResponse: string,
    assumptions: string,
    questionType: string,
    confidence: real,
    ragFound: bool,
    ragContent: string)

  /** What retrieval returns for a question: top 5 chunks for a non-blank context, nothing otherwise. */
  function Retrieved(rag: FinancialRag, similarities: seq<real>, context: string): (r: seq<Chunk>)
    reads rag
    requires rag.Valid() && |similarities| == |rag.chunkEmbeddings|
    ensures |r| <= AgentTopK
    ensures IsBlank(context) ==> r == []
    ensures !IsBlank(context) ==> r == rag.Query(similarities, AgentTopK)
    ensures forall c :: c in r ==> c in rag.knowledgeChunks
  {
    if Strip(context) != "" then rag.Query(similarities, AgentTopK) else []
  }

  /** The fields read out of a reply. */
  function Parsed(reply: string, methodology: string, ragFound: bool, assumptionsOf: string -> string): AgentResponse {
    AgentResponse(AnswerOf(reply), reply, assumptionsOf(reply), ReplyType(reply), AnswerConfidence,
                  ragFound, if ragFound then methodology else "")
  }

  /** The record returned when anything in the try block raises. */
  function ErrorRecord(message: string): AgentResponse {
    AgentResponse(ErrorPrefix + message, ProcessingFailedPrefix + message, "", ErrorType, ErrorConfidence, false, "")
  }

  /** The response for how the model call ended, given the retrieved chunks. */
  function Response(call: RetryResult<string>, retrieved: seq<Chunk>, assumptionsOf: string -> string): AgentResponse {
    var methodology := Join(Texts(retrieved), Newline);
    match call
    case Returned(reply) => Parsed(reply, methodology, |retrieved| > 0, assumptionsOf)
    case Raised(e) => ErrorRecord(e.message)
    case ReturnedNone => ErrorRecord(NoneResponseMessage)
  }

  /** answer_question. */
  method AnswerQuestion(rag: FinancialRag, similarities: seq<real>, context: string, call: nat -> CallOutcome<string>,
                        jitter: nat -> real, assumptionsOf: string -> string)
    returns (r: AgentResponse)
    requires rag.Valid() && |similarities| == |rag.chunkEmbeddings|
    requires forall a: nat :: 0.0 <= jitter(a) <= 1.0
    ensures r == Response(RetryResultOf(call, DefaultMaxRetries), Retrieved(rag, similarities, context), assumptionsOf)
  {
    var ragResults := if Strip(context) != "" then rag.Query(similarities, AgentTopK) else [];
    var methodology := Join(Texts(ragResults), Newline);
    var ragFound := |ragResults| > 0;
    var response, _, _ := Retry(call, DefaultMaxRetries, DefaultBaseDelay, DefaultMaxDelay, jitter);
    match response
    case Returned(answerText) =>
      var questionType := match ClassificationFrom(answerText, 0)
        case Some(w) => LowerAll(w)
        case None => BasicTactical;
      var finalAnswer := match FinalAnswerFrom(answerText, 0)
        case Some(g) => Strip(g)
        case None => Strip(Last(Split(answerText, Newline)));
      r := AgentResponse(finalAnswer, answerText, assumptionsOf(answerText), questionType, AnswerConfidence,
                         ragFound, if ragFound then methodology else "");
    case Raised(e) =>
      r := ErrorRecord(e.message);
    case ReturnedNone =>
      r := ErrorRecord(NoneResponseMessage);
  }

  /**
   * Retrieval is consulted only for a non-blank context. rag_found holds exactly when the
   * call answered and a chunk came back; rag_content is then the chunks' texts joined by
   * newlines, and empty otherwise.
   */
  lemma RetrievalGating(call: RetryResult<string>, retrieved: seq<Chunk>, assumptionsOf: string -> string)
    ensures Response(call, retrieved, assumptionsOf).ragFound <==> call.Returned? && |retrieved| > 0
    ensures Response(call, retrieved, assumptionsOf).ragFound ==>
              Response(call, retrieved, assumptionsOf).ragContent == Join(Texts(retrieved), "\n")
    ensures !Response(call, retrieved, assumptionsOf).ragFound ==> Response(call, retrieved, assumptionsOf).ragContent == ""
  {
  }

  /** With a blank context nothing is retrieved, whatever the model replies. */
  lemma BlankContextNoRetrieval(rag: FinancialRag, similarities: seq<real>, context: string,
                                call: RetryResult<string>, assumptionsOf: string -> string)
    requires rag.Valid() && |similarities| == |rag.chunkEmbeddings|
    requires IsBlank(context)
    ensures !Response(call, Retrieved(rag, similarities, context), assumptionsOf).ragFound
    ensures Response(call, Retrieved(rag, similarities, context), assumptionsOf).ragContent == ""
  {
  }

  /**
   * A reply yields confidence 0.8 and the whole reply as full_response; its type and answer
   * fall back to basic_tactical and the last line when the labels are missing.
   */
  lemma ReplyFields(reply: string, retrieved: seq<Chunk>, assumptionsOf: string -> string)
    ensures Response(Returned(reply), retrieved, assumptionsOf).confidence == 0.8
    ensures Response(Returned(reply), retrieved, assumptionsOf).fullResponse == reply
    ensures Response(Returned(reply), retrieved, assumptionsOf).questionType == ReplyType(reply)
    ensures Response(Returned(reply), retrieved, assumptionsOf).answer == AnswerOf(reply)
    ensures Find(reply, ClassificationMarker, true).None? ==>
              Response(Returned(reply), retrieved, assumptionsOf).questionType == "basic_tactical"
    ensures Find(reply, FinalAnswerMarker, true).None? ==>
              Response(Returned(reply), retrieved, assumptionsOf).answer == Strip(Last(Split(reply, "\n")))
  {
    if Find(reply, FinalAnswerMarker, true).None? {
      AnswerFallback(reply);
    }
  }

  /**
   * When the call raises or returns None: confidence 0.0, nothing found, type "error" and an
   * answer that starts with "Error: ".
   */
  lemma FailureRecord(call: RetryResult<string>, retrieved: seq<Chunk>, assumptionsOf: string -> string)
    requires !call.Returned?
    ensures Response(call, retrieved, assumptionsOf).confidence == 0.0
    ensures !Response(call, retrieved, assumptionsOf).ragFound
    ensures Response(call, retrieved, assumptionsOf).ragContent == ""
    ensures Response(call, retrieved, assumptionsOf).assumptions == ""
    ensures Response(call, retrieved, assumptionsOf).questionType == "error"
    ensures |Response(call, retrieved, assumptionsOf).answer| >= 7
    ensures Response(call, retrieved, assumptionsOf).answer[..7] == "Error: "
  {
  }

  // ---------------------------------------------------------------------------------------
  // _process_single_question
  // ---------------------------------------------------------------------------------------

  /** models.py's EvaluationResult. */
  datatype EvaluationResult = EvaluationResult(
    questionId: string,
    question: string,
    agentAnswer: string,
    expectedAnswer: string,
    isCorrect: bool,
    confidenceScore: real,
    questionType: string,
    reasoningAnalysis: string,
    ragFound: bool,
    ragContent: string)

  /** The result record for a question, its response and the judge's verdict. */
  function ResultOf(data: QuestionData, response: AgentResponse, verdict: (bool, string)): EvaluationResult {
    EvaluationResult(data.questionId, data.question, response.answer, data.expected, verdict.0, response.confidence,
                     data.qType, verdict.1, response.ragFound, response.ragContent)
  }

  /** _process_single_question: answer, then grade the answer. */
  method ProcessSingleQuestion(rag: FinancialRag, data: QuestionData, similarities: seq<real>,
                               answerCall: nat -> CallOutcome<string>, gradeCall: nat -> CallOutcome<string>,
                               jitter: nat -> real, assumptionsOf: string -> string)
    returns (r: EvaluationResult)
    requires rag.Valid() && |similarities| == |rag.chunkEmbeddings|
    requires forall a: nat :: 0.0 <= jitter(a) <= 1.0
    ensures r == ResultOf(data,
                          Response(RetryResultOf(answerCall, DefaultMaxRetries), Retrieved(rag, similarities, data.context), assumptionsOf),
                          Evaluation(RetryResultOf(gradeCall, DefaultMaxRetries)))
    ensures r.questionType == data.qType
  {
    var response := AnswerQuestion(rag, similarities, data.context, answerCall, jitter, assumptionsOf);
    var isCorrect, reasoning := EvaluateAnswer(gradeCall, jitter);
    r := EvaluationResult(data.questionId, data.question, response.answer, data.expected, isCorrect,
                          response.confidence, data.qType, reasoning, response.ragFound, response.ragContent);
  }

  /**
   * The stored type comes from the row's context alone: the model's CLASSIFICATION never
   * reaches the result.
   */
  lemma StoredTypeFromContext(row: Row, response: AgentResponse, verdict: (bool, string))
    ensures ResultOf(Prepared(row), response, verdict).questionType == BasicTactical <==>
              row.context.Some? && !IsBlank(row.context.value)
    ensures ResultOf(Prepared(row), response, verdict).questionType == Conceptual <==>
              row.context.None? || IsBlank(row.context.value)
  {
    PreparedType(row);
  }
}
