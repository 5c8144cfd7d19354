/**
 * The metrics at the end of FinanceQAAgent.evaluate_on_dataset (agent.py:189-220): total
 * questions, total correct, overall accuracy and accuracy by question type, over the list
 * of finished results. The list arrives in completion order, which the thread pool does not
 * fix; the metrics are proved to depend only on the multiset of results.
 */
module AgentMetrics {
  import opened Agent

  /** The number of elements of s that satisfy p. */
  function CountWhere<T>(s: seq<T>, p: T -> bool): (n: nat)
    ensures n <= |s|
    decreases |s|
  {
    if |s| == 0 then 0 else CountWhere(s[..|s| - 1], p) + (if p(s[|s| - 1]) then 1 else 0)
  }

  lemma CountWhereSnoc<T>(s: seq<T>, x: T, p: T -> bool)
    ensures CountWhere(s + [x], p) == CountWhere(s, p) + (if p(x) then 1 else 0)
  {
    assert (s + [x])[..|s|] == s;
  }

  lemma {:induction false} CountWhereConcat<T>(u: seq<T>, v: seq<T>, p: T -> bool)
    ensures CountWhere(u + v, p) == CountWhere(u, p) + CountWhere(v, p)
    decreases |v|
  {
    if |v| == 0 {
      assert u + v == u;
    } else {
      var init := v[..|v| - 1];
      assert u + v == (u + init) + [v[|v| - 1]];
      CountWhereSnoc(u + init, v[|v| - 1], p);
      CountWhereConcat(u, init, p);
    }
  }

  /** Taking out the element at j leaves one fewer of it in the multiset. */
  lemma RemoveAtMultiset<T>(b: seq<T>, j: nat)
    requires j < |b|
    ensures multiset(b[..j] + b[j + 1..]) == multiset(b) - multiset{b[j]}
  {
    var left, x, right := b[..j], b[j], b[j + 1..];
    assert b == left + ([x] + right);
    assert multiset(b) == multiset(left) + (multiset{x} + multiset(right));
    assert multiset(left + right) == multiset(left) + multiset(right);
  }

  /** Taking out the element at j takes its share of the count. */
  lemma RemoveAtCount<T>(b: seq<T>, j: nat, p: T -> bool)
    requires j < |b|
    ensures CountWhere(b, p) == CountWhere(b[..j] + b[j + 1..], p) + (if p(b[j]) then 1 else 0)
  {
    SplitAround(b, j);
    RemoveMiddleCount(b[..j], b[j], b[j + 1..], p);
  }

  lemma SplitAround<T>(b: seq<T>, j: nat)
    requires j < |b|
    ensures b == (b[..j] + [b[j]]) + b[j + 1..]
  {
  }

  lemma RemoveMiddleCount<T>(left: seq<T>, x: T, right: seq<T>, p: T -> bool)
    ensures CountWhere((left + [x]) + right, p) == CountWhere(left + right, p) + (if p(x) then 1 else 0)
  {
    var l, lr, lx := CountWhere(left, p), CountWhere(left + right, p), CountWhere(left + [x], p);
    CountWhereConcat(left, right, p);
    CountWhereConcat(left + [x], right, p);
    CountWhereSnoc(left, x, p);
  }

  /** Counting does not depend on the order of the elements. */
  lemma {:induction false} CountWherePermutation<T>(a: seq<T>, b: seq<T>, p: T -> bool)
    requires multiset(a) == multiset(b)
    ensures CountWhere(a, p) == CountWhere(b, p)
    decreases |a|
  {
    if |a| == 0 {
      assert |b| == |multiset(b)| == 0;
    } else {
      var init, x := a[..|a| - 1], a[|a| - 1];
      assert a == init + [x];
      assert multiset(a) == multiset(init) + multiset{x};
      assert x in multiset(b);
      var j :| 0 <= j < |b| && b[j] == x;
      RemoveAtMultiset(b, j);
      RemoveAtCount(b, j, p);
      CountWherePermutation(init, b[..j] + b[j + 1..], p);
    }
  }

  /** An element satisfying p makes the count positive. */
  lemma {:induction false} CountWherePositive<T>(s: seq<T>, p: T -> bool, x: T)
    requires x in s && p(x)
    ensures CountWhere(s, p) > 0
    decreases |s|
  {
    var init := s[..|s| - 1];
    if s[|s| - 1] != x {
      assert s == init + [s[|s| - 1]];
      CountWherePositive(init, p, x);
    }
  }

  /** Without an element satisfying p the count is zero. */
  lemma {:induction false} CountWhereNone<T>(s: seq<T>, p: T -> bool)
    requires forall x :: x in s ==> !p(x)
    ensures CountWhere(s, p) == 0
    decreases |s|
  {
    if |s| > 0 {
      assert s[|s| - 1] in s;
      assert forall x :: x in s[..|s| - 1] ==> x in s;
      CountWhereNone(s[..|s| - 1], p);
    }
  }

  /** Counting a stronger condition never gives more. */
  lemma {:induction false} CountWhereStronger<T>(s: seq<T>, p: T -> bool, q: T -> bool)
    requires forall x :: p(x) ==> q(x)
    ensures CountWhere(s, p) <= CountWhere(s, q)
    decreases |s|
  {
    if |s| > 0 {
      CountWhereStronger(s[..|s| - 1], p, q);
    }
  }

  predicate IsCorrectResult(r: EvaluationResult) {
    r.isCorrect
  }

  function OfType(t: string): EvaluationResult -> bool {
    (r: EvaluationResult) => r.questionType == t
  }

  function CorrectOfType(t: string): EvaluationResult -> bool {
    (r: EvaluationResult) => r.isCorrect && r.questionType == t
  }

  /** `sum(1 for r in results if r.is_correct)`. */
  function TotalCorrect(results: seq<EvaluationResult>): nat {
    CountWhere(results, IsCorrectResult)
  }

  /** type_counts[t]. */
  function TypeCount(results: seq<EvaluationResult>, t: string): nat {
    CountWhere(results, OfType(t))
  }

  /** type_correct.get(t, 0). */
  function TypeCorrect(results: seq<EvaluationResult>, t: string): nat {
    CountWhere(results, CorrectOfType(t))
  }

  /** The keys of type_counts: the question types that occur in the results. */
  function TypesIn(results: seq<EvaluationResult>): set<string> {
    set r | r in results :: r.questionType
  }

  lemma TypeCountPositive(results: seq<EvaluationResult>, t: string)
    requires t in TypesIn(results)
    ensures TypeCount(results, t) > 0
  {
    var r :| r in results && r.questionType == t;
    CountWherePositive(results, OfType(t), r);
  }

  /** correct / total, or 0 without results. */
  function Accuracy(correct: nat, total: nat): real {
    if total > 0 then correct as real / total as real else 0.0
  }

  lemma AccuracyBounds(correct: nat, total: nat)
    requires correct <= total
    ensures 0.0 <= Accuracy(correct, total) <= 1.0
  {
    if total > 0 {
      var a := correct as real / total as real;
      assert a * total as real == correct as real;
    }
  }

  /** by_type_accuracy[t]. */
  function TypeAccuracy(results: seq<EvaluationResult>, t: string): (a: real)
    requires t in TypesIn(results)
    ensures 0.0 <= a <= 1.0
  {
    TypeCountPositive(results, t);
    CountWhereStronger(results, CorrectOfType(t), OfType(t));
    AccuracyBounds(TypeCorrect(results, t), TypeCount(results, t));
    TypeCorrect(results, t) as real / TypeCount(results, t) as real
  }

  function ByTypeAccuracy(results: seq<EvaluationResult>): map<string, real> {
    map t | t in TypesIn(results) :: TypeAccuracy(results, t)
  }

  /** models.py's BenchmarkResults. */
  datatype BenchmarkResults = BenchmarkResults(
    overallAccuracy: real,
    byTypeAccuracy: map<string, real>,
    detailedResults: seq<EvaluationResult>,
    totalQuestions: nat,
    totalCorrect: nat)

  function Benchmark(results: seq<EvaluationResult>): BenchmarkResults {
    var correct := TotalCorrect(results);
    BenchmarkResults(Accuracy(correct, |results|), ByTypeAccuracy(results), results, |results|, correct)
  }

  lemma TypesInSnoc(s: seq<EvaluationResult>, x: EvaluationResult)
    ensures TypesIn(s + [x]) == TypesIn(s) + {x.questionType}
  {
    assert forall r :: r in s + [x] <==> r in s || r == x;
  }

  /** `m.get(k, 0) + 1` stored at k. */
  function Bump(m: map<string, nat>, k: string): map<string, nat> {
    m[k := (if k in m then m[k] else 0) + 1]
  }

  /** The dictionary type_counts after the results s. */
  ghost predicate CountsTallied(s: seq<EvaluationResult>, counts: map<string, nat>) {
    && (forall t :: t in counts <==> t in TypesIn(s))
    && (forall t :: t in counts ==> counts[t] == TypeCount(s, t))
  }

  /** The dictionary type_correct after the results s. */
  ghost predicate CorrectsTallied(s: seq<EvaluationResult>, corrects: map<string, nat>) {
    && (forall t :: t in corrects <==> TypeCorrect(s, t) > 0)
    && (forall t :: t in corrects ==> corrects[t] == TypeCorrect(s, t))
  }

  /** The dictionaries type_counts and type_correct after the results s. */
  ghost predicate Tallied(s: seq<EvaluationResult>, counts: map<string, nat>, corrects: map<string, nat>) {
    CountsTallied(s, counts) && CorrectsTallied(s, corrects)
  }

  /** A type that does not occur has count zero. */
  lemma TypeCountAbsent(s: seq<EvaluationResult>, t: string)
    requires t !in TypesIn(s)
    ensures TypeCount(s, t) == 0
  {
    forall x | x in s ensures !OfType(t)(x) {
      assert x.questionType in TypesIn(s);
    }
    CountWhereNone(s, OfType(t));
  }

  /** One loop step of type_counts: the result's type is counted. */
  lemma CountStep(s: seq<EvaluationResult>, r: EvaluationResult, counts: map<string, nat>)
    requires CountsTallied(s, counts)
    ensures CountsTallied(s + [r], Bump(counts, r.questionType))
  {
    TypesInSnoc(s, r);
    if r.questionType !in TypesIn(s) {
      TypeCountAbsent(s, r.questionType);
    }
    forall t
      ensures TypeCount(s + [r], t) == TypeCount(s, t) + (if r.questionType == t then 1 else 0)
    {
      CountWhereSnoc(s, r, OfType(t));
    }
  }

  /** One loop step of type_correct: the result's type is counted when the result is correct. */
  lemma CorrectStep(s: seq<EvaluationResult>, r: EvaluationResult, corrects: map<string, nat>)
    requires CorrectsTallied(s, corrects)
    ensures CorrectsTallied(s + [r], if r.isCorrect then Bump(corrects, r.questionType) else corrects)
  {
    forall t
      ensures TypeCorrect(s + [r], t) == TypeCorrect(s, t) + (if r.isCorrect && r.questionType == t then 1 else 0)
    {
      CountWhereSnoc(s, r, CorrectOfType(t));
    }
  }

  /** One loop step: the result's type is counted, and counted as correct when it is. */
  lemma TallyStep(s: seq<EvaluationResult>, r: EvaluationResult, counts: map<string, nat>, corrects: map<string, nat>)
    requires Tallied(s, counts, corrects)
    ensures Tallied(s + [r], Bump(counts, r.questionType), if r.isCorrect then Bump(corrects, r.questionType) else corrects)
  {
    CountStep(s, r, counts);
    CorrectStep(s, r, corrects);
  }

  /** The by-type comprehension over the finished dictionaries is ByTypeAccuracy. */
  lemma TalliedByType(results: seq<EvaluationResult>, counts: map<string, nat>, corrects: map<string, nat>)
    requires Tallied(results, counts, corrects)
    ensures forall q :: q in counts ==> counts[q] > 0
    ensures (map q | q in counts :: (if q in corrects then corrects[q] else 0) as real / counts[q] as real) == ByTypeAccuracy(results)
  {
    forall q | q in counts ensures counts[q] > 0 {
      TypeCountPositive(results, q);
    }
  }

  /** The metrics computation of evaluate_on_dataset, over the finished results. */
  method Aggregate(results: seq<EvaluationResult>) returns (b: BenchmarkResults)
    ensures b == Benchmark(results)
  {
    var total := |results|;
    var correct := CountWhere(results, IsCorrectResult);
    var overallAccuracy := if total > 0 then correct as real / total as real else 0.0;
    var typeCounts: map<string, nat> := map[];
    var typeCorrect: map<string, nat> := map[];
    TalliedEmpty(results);
    for i := 0 to |results|
      invariant Tallied(results[..i], typeCounts, typeCorrect)
    {
      var r := results[i];
      assert results[..i + 1] == results[..i] + [r];
      TallyStep(results[..i], r, typeCounts, typeCorrect);
      var qType := r.questionType;
      typeCounts := Bump(typeCounts, qType);
      if r.isCorrect {
        typeCorrect := Bump(typeCorrect, qType);
      }
    }
    assert results[..|results|] == results;
    TalliedByType(results, typeCounts, typeCorrect);
    var byType := map q | q in typeCounts :: (if q in typeCorrect then typeCorrect[q] else 0) as real / typeCounts[q] as real;
    assert byType == ByTypeAccuracy(results);
    b := BenchmarkResults(overallAccuracy, byType, results, total, correct);
  }

  lemma TalliedEmpty(results: seq<EvaluationResult>)
    ensures Tallied(results[..0], map[], map[])
  {
    assert results[..0] == [];
  }

  /**
   * The totals and accuracies: no more correct than questions, accuracies in [0, 1], 0
   * without results, and one by-type entry, with a non-zero count, per type that occurs.
   */
  lemma BenchmarkBounds(results: seq<EvaluationResult>)
    ensures Benchmark(results).totalQuestions == |results|
    ensures Benchmark(results).totalCorrect <= Benchmark(results).totalQuestions
    ensures 0.0 <= Benchmark(results).overallAccuracy <= 1.0
    ensures |results| == 0 ==> Benchmark(results).overallAccuracy == 0.0
    ensures |results| > 0 ==> Benchmark(results).overallAccuracy == TotalCorrect(results) as real / |results| as real
    ensures Benchmark(results).byTypeAccuracy.Keys == TypesIn(results)
    ensures forall t :: t in Benchmark(results).byTypeAccuracy ==>
              0 < TypeCount(results, t) && TypeCorrect(results, t) <= TypeCount(results, t) &&
              Benchmark(results).byTypeAccuracy[t] == TypeCorrect(results, t) as real / TypeCount(results, t) as real &&
              0.0 <= Benchmark(results).byTypeAccuracy[t] <= 1.0
  {
    AccuracyBounds(TotalCorrect(results), |results|);
    forall t | t in TypesIn(results)
      ensures 0 < TypeCount(results, t) && TypeCorrect(results, t) <= TypeCount(results, t)
    {
      TypeCountPositive(results, t);
      CountWhereStronger(results, CorrectOfType(t), OfType(t));
    }
  }

  /** The sum of TypeCount over the listed types. */
  function SumCounts(results: seq<EvaluationResult>, types: seq<string>): nat
    decreases |types|
  {
    if |types| == 0 then 0 else SumCounts(results, types[..|types| - 1]) + TypeCount(results, types[|types| - 1])
  }

  predicate NoDuplicates<T(==)>(s: seq<T>) {
    forall i, j :: 0 <= i < j < |s| ==> s[i] != s[j]
  }

  function Equals(v: string): string -> bool {
    (t: string) => t == v
  }

  /** One more result adds one to the count of its own type only. */
  lemma {:induction false} SumCountsSnoc(results: seq<EvaluationResult>, x: EvaluationResult, types: seq<string>)
    ensures SumCounts(results + [x], types) == SumCounts(results, types) + CountWhere(types, Equals(x.questionType))
    decreases |types|
  {
    if |types| > 0 {
      SumCountsSnoc(results, x, types[..|types| - 1]);
      CountWhereSnoc(results, x, OfType(types[|types| - 1]));
    }
  }

  /** A value occurs once in a list without duplicates that holds it. */
  lemma {:induction false} OccursOnce(types: seq<string>, v: string)
    requires NoDuplicates(types) && v in types
    ensures CountWhere(types, Equals(v)) == 1
    decreases |types|
  {
    var init, last := types[..|types| - 1], types[|types| - 1];
    assert types == init + [last];
    if last == v {
      assert v !in init;
      CountWhereNone(init, Equals(v));
    } else {
      OccursOnce(init, v);
    }
  }

  /**
   * The per-type counts sum to the total: summed over any duplicate-free list of types that
   * covers every type in the results, they give the number of results.
   */
  lemma {:induction false} TypeCountsSumToTotal(results: seq<EvaluationResult>, types: seq<string>)
    requires NoDuplicates(types)
    requires forall t :: t in TypesIn(results) ==> t in types
    ensures SumCounts(results, types) == |results|
    decreases |results|
  {
    if |results| == 0 {
      ZeroCounts(types);
    } else {
      var init, x := results[..|results| - 1], results[|results| - 1];
      assert results == init + [x];
      TypesInSnoc(init, x);
      TypeCountsSumToTotal(init, types);
      SumCountsSnoc(init, x, types);
      OccursOnce(types, x.questionType);
    }
  }

  lemma {:induction false} ZeroCounts(types: seq<string>)
    ensures SumCounts([], types) == 0
    decreases |types|
  {
    if |types| > 0 {
      ZeroCounts(types[..|types| - 1]);
    }
  }

  /**
   * The metrics depend only on which results there are, not on the order they completed
   * in: two orderings of the same results differ only in detailed_results.
   */
  lemma BenchmarkOrderIndependent(a: seq<EvaluationResult>, b: seq<EvaluationResult>)
    requires multiset(a) == multiset(b)
    ensures Benchmark(a).(detailedResults := b) == Benchmark(b)
  {
    assert |a| == |multiset(a)| == |b|;
    CountWherePermutation(a, b, IsCorrectResult);
    assert forall r :: r in a <==> r in b by {
      forall r ensures r in a <==> r in b {
        assert r in a <==> r in multiset(a);
        assert r in b <==> r in multiset(b);
      }
    }
    assert TypesIn(a) == TypesIn(b);
    forall t | t in TypesIn(a) ensures TypeAccuracy(a, t) == TypeAccuracy(b, t) {
      CountWherePermutation(a, b, OfType(t));
      CountWherePermutation(a, b, CorrectOfType(t));
    }
    assert ByTypeAccuracy(a) == ByTypeAccuracy(b);
  }
}
