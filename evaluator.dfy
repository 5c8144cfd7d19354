/**
 * The verdict and reason parsing of NumericalEvaluator.evaluate_answer (evaluator.py:45-72).
 * A judge model is asked whether an answer is correct. Only the first line of its reply,
 * upper-cased, decides the verdict. The reason is the text after the last "REASON:".
 *
 * The judge call is modelled by its outcome on each attempt of the retry loop; the prompt
 * it is sent (built from the question, the expected answer and the agent's answer) is not
 * modelled.
 */
module Evaluator {
  import opened Wrappers
  import opened Text
  import opened Utils

  const Newline: string := "\n"
  const ReasonMarker: string := "REASON:"
  const DefaultReason: string := "Evaluation completed"
  const FailurePrefix: string := "Evaluation failed: "
  /** What Python reports when the retry loop falls through and returns None. */
  const NoneResponseMessage: string := "'NoneType' object has no attribute 'choices'"

  predicate HasNoNewline(s: string) {
    Find(s, Newline, false).None?
  }

  lemma NoNewlineChars(s: string)
    requires HasNoNewline(s)
    ensures forall k :: 0 <= k < |s| ==> s[k] != '\n'
  {
    forall k | 0 <= k < |s| ensures s[k] != '\n' {
      if s[k] == '\n' {
        assert MatchesAt(s, k, Newline, false);
      }
    }
  }

  /** `reply.split('\n')[0]`: the reply up to its first newline. */
  function FirstLine(reply: string): (line: string)
    ensures HasNoNewline(line)
    ensures |line| <= |reply| && reply[..|line|] == line
    ensures |line| < |reply| ==> reply[|line|] == '\n'
  {
    var parts := Split(reply, Newline);
    if |parts| >= 2 then
      CleanHasNoSep(parts[0], Newline);
      assert reply == parts[0] + Newline + Join(parts[1..], Newline);
      parts[0]
    else
      parts[0]
  }

  /** A newline-free prefix of s ends at or before any newline of s. */
  lemma PrefixBeforeNewline(s: string, l: string, n: nat)
    requires |l| <= |s| && s[..|l|] == l
    requires forall k :: 0 <= k < |l| ==> l[k] != '\n'
    requires n < |s| && s[n] == '\n'
    ensures |l| <= n
  {
    forall k | 0 <= k < |l| ensures s[k] != '\n' {
      assert s[k] == l[k];
    }
  }

  /** The first line of a reply is the text before its first newline, whatever follows. */
  lemma FirstLineOf(line: string, rest: string)
    requires HasNoNewline(line)
    ensures FirstLine(line + "\n" + rest) == line
    ensures FirstLine(line) == line
  {
    FirstLineBeforeNewline(line, rest);
    FirstLineWhole(line);
  }

  lemma FirstLineBeforeNewline(line: string, rest: string)
    requires HasNoNewline(line)
    ensures FirstLine(line + "\n" + rest) == line
  {
    NoNewlineChars(line);
    var reply := line + "\n" + rest;
    var l := FirstLine(reply);
    NoNewlineChars(l);
    LineThenNewline(line, rest);
    SameLine(reply, l, line);
  }

  lemma LineThenNewline(line: string, rest: string)
    ensures |line| < |line + "\n" + rest| && (line + "\n" + rest)[..|line|] == line
    ensures (line + "\n" + rest)[|line|] == '\n'
  {
  }

  /** Two newline-free prefixes that each end at a newline or at the end are the same. */
  lemma SameLine(s: string, l: string, line: string)
    requires |l| <= |s| && s[..|l|] == l && (|l| < |s| ==> s[|l|] == '\n')
    requires |line| < |s| && s[..|line|] == line && s[|line|] == '\n'
    requires forall k :: 0 <= k < |l| ==> l[k] != '\n'
    requires forall k :: 0 <= k < |line| ==> line[k] != '\n'
    ensures l == line
  {
    PrefixBeforeNewline(s, l, |line|);
    PrefixBeforeNewline(s, line, |l|);
  }

  lemma FirstLineWhole(line: string)
    requires HasNoNewline(line)
    ensures FirstLine(line) == line
  {
    NoNewlineChars(line);
    assert |FirstLine(line)| == |line|;
  }

  /** The verdict rule of evaluate_answer. */
  function IsCorrect(reply: string): bool {
    var firstLine := UpperAll(FirstLine(reply));
    if Contains(firstLine, "INCORRECT") then false
    else if Contains(firstLine, "CORRECT") then true
    else EndsWith(firstLine, "CORRECT")   // fallback: look for the exact pattern
  }

  /** Only the first line decides the verdict. */
  lemma OnlyFirstLineMatters(line: string, rest: string)
    requires HasNoNewline(line)
    ensures IsCorrect(line + "\n" + rest) == IsCorrect(line)
  {
    FirstLineOf(line, rest);
  }

  /** A first line containing INCORRECT, in any case, is a False verdict, although it contains CORRECT too. */
  lemma IncorrectWins(reply: string)
    requires Contains(UpperAll(FirstLine(reply)), "INCORRECT")
    ensures !IsCorrect(reply)
  {
  }

  /**
   * Without INCORRECT, the verdict is True exactly when the first line contains CORRECT:
   * the endswith fallback can never hold where the containment test failed.
   */
  lemma CorrectIff(reply: string)
    requires !Contains(UpperAll(FirstLine(reply)), "INCORRECT")
    ensures IsCorrect(reply) <==> Contains(UpperAll(FirstLine(reply)), "CORRECT")
  {
    var firstLine := UpperAll(FirstLine(reply));
    if EndsWith(firstLine, "CORRECT") {
      EndsWithContains(firstLine, "CORRECT");
    }
  }

  /** A first line that opens with the requested label CORRECTNESS: is True unless it contains INCORRECT. */
  lemma CorrectnessLabel(reply: string)
    requires |FirstLine(reply)| >= 12 && UpperAll(FirstLine(reply))[..12] == "CORRECTNESS:"
    ensures IsCorrect(reply) <==> !Contains(UpperAll(FirstLine(reply)), "INCORRECT")
  {
    var firstLine := UpperAll(FirstLine(reply));
    assert firstLine[..7] == "CORRECT" by {
      assert firstLine[..12][..7] == firstLine[..7];
    }
    assert MatchesAt(firstLine, 0, "CORRECT", false);
  }

  function Last<T>(s: seq<T>): T
    requires |s| > 0
  {
    s[|s| - 1]
  }

  /** `result.split('REASON:')[-1].strip() if 'REASON:' in result else "Evaluation completed"`. */
  function Reason(reply: string): string {
    if Contains(reply, ReasonMarker) then Strip(Last(Split(reply, ReasonMarker))) else DefaultReason
  }

  /**
   * With a REASON: marker, the reason is the stripped text after the last one: the reply
   * ends with the marker followed by that text, which holds no further marker.
   */
  lemma ReasonAfterLastMarker(reply: string)
    requires Contains(reply, ReasonMarker)
    ensures var tail := Last(Split(reply, ReasonMarker));
      && Reason(reply) == Strip(tail)
      && !Contains(tail, ReasonMarker)
      && EndsWith(reply, ReasonMarker + tail)
  {
    var parts := Split(reply, ReasonMarker);
    SplitAtSep(reply, ReasonMarker);
    JoinEndsWithSepLast(parts, ReasonMarker);
    assert Last(parts) == parts[|parts| - 1];
  }

  /** REASON: matches at no offset of itself but 0, so two occurrences never overlap. */
  lemma MarkerNoSelfOverlap(o: nat)
    requires 0 < o < |ReasonMarker|
    ensures ReasonMarker[o] != ReasonMarker[0]
  {
  }

  /** Text without the marker matches it at no offset. */
  lemma NoMarkerAt(tail: string, k: nat)
    requires !Contains(tail, ReasonMarker)
    ensures !MatchesAt(tail, k, ReasonMarker, false)
  {
  }

  /** A marker followed by marker-free text holds no second marker. */
  lemma SingleMarker(tail: string, d: nat)
    requires !Contains(tail, ReasonMarker)
    requires 0 < d && d + |ReasonMarker| <= |ReasonMarker + tail|
    ensures (ReasonMarker + tail)[d..d + |ReasonMarker|] != ReasonMarker
  {
    var s, m := ReasonMarker + tail, |ReasonMarker|;
    if d < m {
      MarkerNoSelfOverlap(d);
      assert s[d..d + m][0] == ReasonMarker[d];
    } else {
      var k := d - m;
      NoMarkerAt(tail, k);
      var j :| 0 <= j < m && tail[k + j] != ReasonMarker[j];
      assert s[d..d + m][j] == tail[k + j];
    }
  }

  /** Two suffixes marker + marker-free text of the same string are the same suffix. */
  lemma LastMarkerUnique(reply: string, t1: string, t2: string)
    requires EndsWith(reply, ReasonMarker + t1) && !Contains(t1, ReasonMarker)
    requires EndsWith(reply, ReasonMarker + t2) && !Contains(t2, ReasonMarker)
    requires |t1| <= |t2|
    ensures t1 == t2
  {
    var s1, s2 := ReasonMarker + t1, ReasonMarker + t2;
    var d := |t2| - |t1|;
    assert s2[d..] == s1;
    if d > 0 {
      assert s2[d..d + |ReasonMarker|] == ReasonMarker by {
        assert s2[d..][..|ReasonMarker|] == s1[..|ReasonMarker|];
      }
      SingleMarker(t2, d);
      assert false;
    }
    assert t1 == s1[|ReasonMarker|..];
    assert t2 == s2[|ReasonMarker|..];
  }

  lemma MarkerAt(prefix: string, tail: string)
    ensures Contains(prefix + ReasonMarker + tail, ReasonMarker)
    ensures EndsWith(prefix + ReasonMarker + tail, ReasonMarker + tail)
  {
    var reply := prefix + ReasonMarker + tail;
    assert reply == prefix + (ReasonMarker + tail);
    assert MatchesAt(reply, |prefix|, ReasonMarker, false) by {
      assert reply[|prefix|..|prefix| + |ReasonMarker|] == ReasonMarker;
    }
  }

  /** Whatever precedes it, a last REASON: followed by marker-free text gives that text, stripped. */
  lemma ReasonOf(prefix: string, tail: string)
    requires !Contains(tail, ReasonMarker)
    ensures Reason(prefix + ReasonMarker + tail) == Strip(tail)
  {
    var reply := prefix + ReasonMarker + tail;
    MarkerAt(prefix, tail);
    ReasonAfterLastMarker(reply);
    var last := Last(Split(reply, ReasonMarker));
    if |last| <= |tail| {
      LastMarkerUnique(reply, last, tail);
    } else {
      LastMarkerUnique(reply, tail, last);
    }
  }

  /** Without a REASON: marker the reason is the fixed text. */
  lemma ReasonDefault(reply: string)
    requires !Contains(reply, ReasonMarker)
    ensures Reason(reply) == "Evaluation completed"
  {
  }

  /** The verdict and reason for how the judge call ended. */
  function Evaluation(call: RetryResult<string>): (verdict: (bool, string)) {
    match call
    case Returned(reply) => (IsCorrect(reply), Reason(reply))
    case Raised(e) => (false, FailurePrefix + e.message)
    case ReturnedNone => (false, FailurePrefix + NoneResponseMessage)
  }

  /** Any failure of the judge call gives False with an "Evaluation failed: " reason. */
  lemma FailedEvaluation(call: RetryResult<string>)
    requires !call.Returned?
    ensures !Evaluation(call).0
    ensures |Evaluation(call).1| >= 19 && Evaluation(call).1[..19] == "Evaluation failed: "
  {
  }

  /** evaluate_answer: ask the judge model, with retries, and parse its reply. */
  method EvaluateAnswer(call: nat -> CallOutcome<string>, jitter: nat -> real) returns (isCorrect: bool, reason: string)
    requires forall a: nat :: 0.0 <= jitter(a) <= 1.0
    ensures (isCorrect, reason) == Evaluation(RetryResultOf(call, DefaultMaxRetries))
  {
    var response, _, _ := Retry(call, DefaultMaxRetries, DefaultBaseDelay, DefaultMaxDelay, jitter);
    match response
    case Returned(result) =>
      var firstLine := UpperAll(FirstLine(result));
      if Contains(firstLine, "INCORRECT") {
        isCorrect := false;
      } else if Contains(firstLine, "CORRECT") {
        isCorrect := true;
      } else {
        isCorrect := EndsWith(firstLine, "CORRECT");
      }
      reason := if Contains(result, ReasonMarker) then Strip(Last(Split(result, ReasonMarker))) else DefaultReason;
    case Raised(e) =>
      isCorrect, reason := false, FailurePrefix + e.message;
    case ReturnedNone =>
      isCorrect, reason := false, FailurePrefix + NoneResponseMessage;
  }
}
