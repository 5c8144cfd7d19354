/**
 * The Python string operations that the chunkers and reply parsers rely on: str.strip(),
 * substring search (`in`, re.search on a literal), str.split(sep), sep.join(parts), upper()/lower(),
 * str(n) for a natural number, and list filtering.
 *
 * Python is Unicode-aware where this module is ASCII-only: whitespace is the ASCII part of
 * str.isspace() and case conversion touches only A-Z / a-z.
 */
module Text {
  import opened Wrappers

  // ---------------------------------------------------------------------------------------
  // Whitespace and strip
  // ---------------------------------------------------------------------------------------

  /** str.isspace() on one character, ASCII part: \t \n \v \f \r, \x1c-\x1f and the space. */
  predicate IsSpace(c: char) {
    c == ' ' || 9 <= c as int <= 13 || 28 <= c as int <= 31
  }

  /** s has no non-whitespace character, which is Python's `not s.strip()`. */
  predicate IsBlank(s: string) {
    forall i :: 0 <= i < |s| ==> IsSpace(s[i])
  }

  /** The first index at or after i that holds a non-whitespace character, or |s|. */
  function SkipSpaces(s: string, i: nat): (k: nat)
    requires i <= |s|
    ensures i <= k <= |s|
    ensures forall j :: i <= j < k ==> IsSpace(s[j])
    ensures k < |s| ==> !IsSpace(s[k])
    decreases |s| - i
  {
    if i == |s| || !IsSpace(s[i]) then i else SkipSpaces(s, i + 1)
  }

  /** One past the last non-whitespace character before index k, or 0. */
  function SkipSpacesBack(s: string, k: nat): (e: nat)
    requires k <= |s|
    ensures e <= k
    ensures forall j :: e <= j < k ==> IsSpace(s[j])
    ensures 0 < e ==> !IsSpace(s[e - 1])
    decreases k
  {
    if k == 0 || !IsSpace(s[k - 1]) then k else SkipSpacesBack(s, k - 1)
  }

  /** Where str.strip() starts cutting: the first non-whitespace character, or |s|. */
  function StripStart(s: string): nat {
    SkipSpaces(s, 0)
  }

  /** Where str.strip() stops: one past the last non-whitespace character (|s| if none). */
  function StripEnd(s: string): nat {
    if StripStart(s) == |s| then |s| else SkipSpacesBack(s, |s|)
  }

  /** str.strip(): s without its leading and trailing whitespace. */
  function Strip(s: string): (r: string)
    ensures StripStart(s) <= StripEnd(s) <= |s|
    ensures IsBlank(s[..StripStart(s)]) && IsBlank(s[StripEnd(s)..])
    ensures r == s[StripStart(s)..StripEnd(s)]
    ensures r == "" <==> IsBlank(s)
    ensures r != "" ==> !IsSpace(r[0]) && !IsSpace(r[|r| - 1])
  {
    var lo, hi := StripStart(s), StripEnd(s);
    assert lo < |s| ==> lo < hi;
    s[lo..hi]
  }

  /** A trailing newline never changes what strip returns. */
  lemma StripIgnoresTrailingNewline(s: string)
    ensures Strip(s + "\n") == Strip(s)
  {
    var t := s + "\n";
    assert forall i | 0 <= i < |s| :: t[i] == s[i];
    if IsBlank(s) {
      assert IsBlank(t);
    } else {
      var lo, hi := StripStart(s), StripEnd(s);
      assert lo < |s| && StripStart(t) == lo;
      assert StripEnd(t) == hi;
      assert t[lo..hi] == s[lo..hi];
    }
  }

  // ---------------------------------------------------------------------------------------
  // Case conversion (ASCII)
  // ---------------------------------------------------------------------------------------

  function Lower(c: char): char {
    if 'A' <= c <= 'Z' then (c as int + 32) as char else c
  }

  function Upper(c: char): char {
    if 'a' <= c <= 'z' then (c as int - 32) as char else c
  }

  /** str.upper() on ASCII letters. */
  function UpperAll(s: string): string {
    seq(|s|, i requires 0 <= i < |s| => Upper(s[i]))
  }

  /** str.lower() on ASCII letters. */
  function LowerAll(s: string): string {
    seq(|s|, i requires 0 <= i < |s| => Lower(s[i]))
  }

  // ---------------------------------------------------------------------------------------
  // Substring search
  // ---------------------------------------------------------------------------------------

  /** Equal characters, or equal after lower-casing when the search ignores case. */
  predicate SameChar(a: char, b: char, ignoreCase: bool) {
    if ignoreCase then Lower(a) == Lower(b) else a == b
  }

  /** pat occurs in s starting at index k. */
  predicate MatchesAt(s: string, k: int, pat: string, ignoreCase: bool) {
    0 <= k && k + |pat| <= |s| &&
    forall j :: 0 <= j < |pat| ==> SameChar(s[k + j], pat[j], ignoreCase)
  }

  /** The leftmost occurrence of pat in s at index i or later. */
  function FindFrom(s: string, pat: string, ignoreCase: bool, i: nat): (r: Option<nat>)
    ensures r.Some? ==> i <= r.value && MatchesAt(s, r.value, pat, ignoreCase)
    ensures forall k :: i <= k && (r.None? || k < r.value) ==> !MatchesAt(s, k, pat, ignoreCase)
    decreases |s| - i
  {
    if i + |pat| > |s| then None
    else if MatchesAt(s, i, pat, ignoreCase) then Some(i)
    else FindFrom(s, pat, ignoreCase, i + 1)
  }

  /** The leftmost occurrence of pat in s (str.find, or re.search on an escaped literal). */
  function Find(s: string, pat: string, ignoreCase: bool): Option<nat> {
    FindFrom(s, pat, ignoreCase, 0)
  }

  /** A pattern that matches at 0 is found at 0. */
  lemma FoundAtStart(s: string, pat: string, ignoreCase: bool)
    requires MatchesAt(s, 0, pat, ignoreCase)
    ensures FindFrom(s, pat, ignoreCase, 0) == Some(0)
  {
  }

  /** Python's `pat in s`. */
  predicate Contains(s: string, pat: string) {
    Find(s, pat, false).Some?
  }

  /** str.endswith(suffix). */
  predicate EndsWith(s: string, suffix: string) {
    |suffix| <= |s| && s[|s| - |suffix|..] == suffix
  }

  /** An occurrence inside the left operand of a concatenation is an occurrence in the whole. */
  lemma MatchesInLeft(a: string, b: string, k: int, pat: string, ignoreCase: bool)
    requires 0 <= k && k + |pat| <= |a|
    ensures MatchesAt(a + b, k, pat, ignoreCase) <==> MatchesAt(a, k, pat, ignoreCase)
  {
    assert forall j | k <= j < k + |pat| :: (a + b)[j] == a[j];
  }

  /** Occurrences in the right operand of a concatenation are those of the whole, shifted. */
  lemma MatchesInRight(a: string, b: string, k: int, pat: string, ignoreCase: bool)
    requires 0 <= k
    ensures MatchesAt(a + b, |a| + k, pat, ignoreCase) <==> MatchesAt(b, k, pat, ignoreCase)
  {
    assert forall j | 0 <= j < |b| :: (a + b)[|a| + j] == b[j];
  }

  /** A suffix that ends a string is found in it. */
  lemma EndsWithContains(s: string, suffix: string)
    requires EndsWith(s, suffix)
    ensures Contains(s, suffix)
  {
    var k := |s| - |suffix|;
    assert forall j :: 0 <= j < |suffix| ==> s[k + j] == s[k..][j];
    assert MatchesAt(s, k, suffix, false);
  }

  // ---------------------------------------------------------------------------------------
  // Join and split
  // ---------------------------------------------------------------------------------------

  /** sep.join(parts). */
  function Join(parts: seq<string>, sep: string): string
    decreases |parts|
  {
    if |parts| == 0 then ""
    else if |parts| == 1 then parts[0]
    else parts[0] + sep + Join(parts[1..], sep)
  }

  /**
   * p followed by sep has its first sep exactly after p, so that splitting
   * `p + sep + rest` yields p as its first part. For sep == "\n\n" this means: p holds
   * no blank-line separator and does not end with a newline.
   */
  predicate Clean(p: string, sep: string) {
    forall k :: 0 <= k < |p| ==> !MatchesAt(p + sep, k, sep, false)
  }

  /** An occurrence of sep found by Find splits s around it, and what precedes it is Clean. */
  lemma SplitStep(s: string, sep: string, i: nat)
    requires |sep| > 0 && Find(s, sep, false) == Some(i)
    ensures i + |sep| <= |s|
    ensures s == s[..i] + sep + s[i + |sep|..]
    ensures Clean(s[..i], sep)
  {
    assert MatchesAt(s, i, sep, false);
    assert forall j :: 0 <= j < |sep| ==> s[i..i + |sep|][j] == sep[j];
    assert s[i..i + |sep|] == sep;
    assert s == s[..i] + s[i..i + |sep|] + s[i + |sep|..];
    var pre := s[..i + |sep|];
    assert s[..i] + sep == pre;
    assert s == pre + s[i + |sep|..];
    forall k | 0 <= k < i
      ensures !MatchesAt(s[..i] + sep, k, sep, false)
    {
      MatchesInLeft(pre, s[i + |sep|..], k, sep, false);
    }
  }

  /** A Clean string holds no occurrence of sep. */
  lemma CleanHasNoSep(p: string, sep: string)
    requires |sep| > 0 && Clean(p, sep)
    ensures Find(p, sep, false).None?
  {
    var r := Find(p, sep, false);
    if r.Some? {
      MatchesInLeft(p, sep, r.value, sep, false);
      assert false;
    }
  }

  /** After a Clean part, the first separator is the one that follows it. */
  lemma FirstSepAfterClean(p: string, sep: string, rest: string)
    requires |sep| > 0 && Clean(p, sep)
    ensures Find(p + sep + rest, sep, false) == Some(|p|)
  {
    var s := p + sep + rest;
    MatchesInRight(p, sep, 0, sep, false);
    MatchesInLeft(p + sep, rest, |p|, sep, false);
    forall k | 0 <= k < |p|
      ensures !MatchesAt(s, k, sep, false)
    {
      MatchesInLeft(p + sep, rest, k, sep, false);
    }
  }

  /** str.split(sep): the pieces between the non-overlapping leftmost occurrences of sep. */
  function Split(s: string, sep: string): (parts: seq<string>)
    requires |sep| > 0
    ensures |parts| >= 1
    ensures Join(parts, sep) == s
    ensures forall i :: 0 <= i < |parts| - 1 ==> Clean(parts[i], sep)
    ensures Find(parts[|parts| - 1], sep, false).None?
    decreases |s|
  {
    match Find(s, sep, false)
    case None => [s]
    case Some(i) =>
      SplitStep(s, sep, i);
      var rest := Split(s[i + |sep|..], sep);
      SplitCons(s[..i], sep, s[i + |sep|..], rest);
      [s[..i]] + rest
  }

  /** Putting a Clean first part before the split of the rest. */
  lemma SplitCons(p: string, sep: string, tail: string, rest: seq<string>)
    requires |rest| >= 1 && Join(rest, sep) == tail && Clean(p, sep)
    requires forall k :: 0 <= k < |rest| - 1 ==> Clean(rest[k], sep)
    ensures Join([p] + rest, sep) == p + sep + tail
    ensures forall k :: 0 <= k < |rest| ==> Clean(([p] + rest)[k], sep)
    ensures ([p] + rest)[|rest|] == rest[|rest| - 1]
  {
    var parts := [p] + rest;
    assert parts[1..] == rest;
    forall k | 0 <= k < |rest| ensures Clean(parts[k], sep) {
      if k > 0 {
        assert parts[k] == rest[k - 1];
      }
    }
  }

  /** Joining Clean parts and splitting again gives the parts back. */
  lemma {:induction false} SplitJoin(parts: seq<string>, sep: string)
    requires |sep| > 0 && |parts| >= 1
    requires forall i :: 0 <= i < |parts| ==> Clean(parts[i], sep)
    ensures Split(Join(parts, sep), sep) == parts
    decreases |parts|
  {
    if |parts| == 1 {
      CleanHasNoSep(parts[0], sep);
    } else {
      var p, rest := parts[0], Join(parts[1..], sep);
      var s := p + sep + rest;
      assert Join(parts, sep) == s;
      FirstSepAfterClean(p, sep, rest);
      assert s[..|p|] == p;
      assert s[|p| + |sep|..] == rest;
      assert Split(s, sep) == [p] + Split(rest, sep);
      SplitJoin(parts[1..], sep);
      assert parts == [p] + parts[1..];
    }
  }

  /** Joining one more part appends a separator and the part. */
  lemma {:induction false} JoinSnoc(parts: seq<string>, x: string, sep: string)
    requires |parts| >= 1
    ensures Join(parts + [x], sep) == Join(parts, sep) + sep + x
    decreases |parts|
  {
    if |parts| > 1 {
      assert (parts + [x])[1..] == parts[1..] + [x];
      JoinSnoc(parts[1..], x, sep);
    }
  }

  /** Joining two non-empty lists of parts puts one separator between their joins. */
  lemma {:induction false} JoinConcat(a: seq<string>, b: seq<string>, sep: string)
    requires |a| >= 1 && |b| >= 1
    ensures Join(a + b, sep) == Join(a, sep) + sep + Join(b, sep)
    decreases |a|
  {
    if |a| == 1 {
      assert (a + b)[1..] == b;
    } else {
      assert (a + b)[1..] == a[1..] + b;
      JoinConcat(a[1..], b, sep);
    }
  }

  /** A join of two or more parts ends with the separator and the last part. */
  lemma JoinEndsWithSepLast(parts: seq<string>, sep: string)
    requires |parts| >= 2
    ensures EndsWith(Join(parts, sep), sep + parts[|parts| - 1])
  {
    var n := |parts|;
    var init, last := parts[..n - 1], parts[n - 1];
    assert parts == init + [last];
    JoinSnoc(init, last, sep);
    var s := Join(parts, sep);
    assert s == Join(init, sep) + (sep + last);
    assert s[|s| - |sep + last|..] == sep + last;
  }

  /** Text holding the separator splits into two or more parts. */
  lemma SplitAtSep(s: string, sep: string)
    requires |sep| > 0 && Find(s, sep, false).Some?
    ensures |Split(s, sep)| >= 2
  {
  }

  /** A join ends with its last part. */
  lemma {:induction false} JoinEndsWithLast(parts: seq<string>, sep: string)
    requires |parts| >= 1
    ensures var s, last := Join(parts, sep), parts[|parts| - 1];
      |last| <= |s| && s[|s| - |last|..] == last
    decreases |parts|
  {
    if |parts| > 1 {
      JoinEndsWithLast(parts[1..], sep);
    }
  }

  // ---------------------------------------------------------------------------------------
  // Lists
  // ---------------------------------------------------------------------------------------

  function Min(a: int, b: int): int {
    if a < b then a else b
  }

  /** The concatenation of a list of lists. */
  function Flatten<T>(ss: seq<seq<T>>): seq<T>
    decreases |ss|
  {
    if |ss| == 0 then [] else ss[0] + Flatten(ss[1..])
  }

  lemma {:induction false} FlattenSnoc<T>(ss: seq<seq<T>>, x: seq<T>)
    ensures Flatten(ss + [x]) == Flatten(ss) + x
    decreases |ss|
  {
    if |ss| == 0 {
      assert ([] + [x])[1..] == [];
    } else {
      assert (ss + [x])[1..] == ss[1..] + [x];
      FlattenSnoc(ss[1..], x);
    }
  }

  /** `[x for x in s if keep(x)]`. */
  function Filter<T>(s: seq<T>, keep: T -> bool): (r: seq<T>)
    ensures |r| <= |s|
    decreases |s|
  {
    if |s| == 0 then []
    else Filter(s[..|s| - 1], keep) + (if keep(s[|s| - 1]) then [s[|s| - 1]] else [])
  }

  /** The filter keeps exactly the elements that pass. */
  lemma {:induction false} FilterMembers<T>(s: seq<T>, keep: T -> bool)
    ensures forall x :: x in Filter(s, keep) <==> x in s && keep(x)
    decreases |s|
  {
    if |s| > 0 {
      var init := s[..|s| - 1];
      FilterMembers(init, keep);
      assert s == init + [s[|s| - 1]];
    }
  }

  /** Filtering one more element. */
  lemma FilterSnoc<T>(s: seq<T>, x: T, keep: T -> bool)
    ensures Filter(s + [x], keep) == Filter(s, keep) + (if keep(x) then [x] else [])
  {
    assert (s + [x])[..|s|] == s;
  }

  /** Every element of the filtered list comes from the list and passes. */
  lemma FilterElement<T>(s: seq<T>, keep: T -> bool, i: nat)
    requires i < |Filter(s, keep)|
    ensures Filter(s, keep)[i] in s && keep(Filter(s, keep)[i])
  {
    FilterMembers(s, keep);
    assert Filter(s, keep)[i] in Filter(s, keep);
  }

  /** A relation that holds between every earlier and later element still holds after filtering. */
  lemma {:induction false} FilterPairwise<T>(s: seq<T>, keep: T -> bool, rel: (T, T) -> bool)
    requires forall i, j :: 0 <= i < j < |s| ==> rel(s[i], s[j])
    ensures forall i, j :: 0 <= i < j < |Filter(s, keep)| ==> rel(Filter(s, keep)[i], Filter(s, keep)[j])
    decreases |s|
  {
    if |s| > 0 {
      var init, last := s[..|s| - 1], s[|s| - 1];
      FilterPairwise(init, keep, rel);
      var f := Filter(init, keep);
      forall i | 0 <= i < |f|
        ensures rel(f[i], last)
      {
        FilterElement(init, keep, i);
        var k :| 0 <= k < |init| && init[k] == f[i];
        assert s[k] == f[i];
      }
    }
  }

  /** The positions of s whose elements pass, in increasing order. */
  function KeptIndices<T>(s: seq<T>, keep: T -> bool): seq<nat>
    decreases |s|
  {
    if |s| == 0 then []
    else KeptIndices(s[..|s| - 1], keep) + (if keep(s[|s| - 1]) then [|s| - 1] else [])
  }

  /** r is the sub-list of s at the strictly increasing positions idx. */
  ghost predicate SublistAt<T>(r: seq<T>, s: seq<T>, idx: seq<nat>) {
    && |idx| == |r|
    && (forall k :: 0 <= k < |idx| ==> idx[k] < |s| && r[k] == s[idx[k]])
    && (forall k, l :: 0 <= k < l < |idx| ==> idx[k] < idx[l])
  }

  /**
   * The filter keeps the passing elements in their original order, each occurrence once:
   * it is the sub-list of s at the positions whose elements pass, and at no other position.
   */
  lemma {:induction false} FilterOrder<T>(s: seq<T>, keep: T -> bool)
    ensures SublistAt(Filter(s, keep), s, KeptIndices(s, keep))
    ensures forall j :: 0 <= j < |s| ==> (keep(s[j]) <==> j in KeptIndices(s, keep))
    decreases |s|
  {
    if |s| > 0 {
      var init, x := s[..|s| - 1], s[|s| - 1];
      FilterOrder(init, keep);
      var idx0 := KeptIndices(init, keep);
      forall k | 0 <= k < |idx0|
        ensures idx0[k] < |init| && s[idx0[k]] == init[idx0[k]]
      {
      }
      forall j | 0 <= j < |init|
        ensures s[j] == init[j]
      {
      }
    }
  }

  // ---------------------------------------------------------------------------------------
  // Decimal numerals
  // ---------------------------------------------------------------------------------------

  predicate IsDigit(c: char) {
    '0' <= c <= '9'
  }

  /** str(n) for a natural number n. */
  function NatToString(n: nat): (s: string)
    ensures |s| >= 1 && forall i :: 0 <= i < |s| ==> IsDigit(s[i])
    decreases n
  {
    var d := ('0' as int + n % 10) as char;
    if n < 10 then [d] else NatToString(n / 10) + [d]
  }

  /** int(s) for a string of decimal digits. */
  function ParseNat(s: string): nat
    requires forall i :: 0 <= i < |s| ==> IsDigit(s[i])
    decreases |s|
  {
    if |s| == 0 then 0
    else
      var c := s[|s| - 1];
      assert IsDigit(c);
      ParseNat(s[..|s| - 1]) * 10 + (c as int - '0' as int)
  }

  /** Reading back a rendered number gives the number. */
  lemma {:induction false} ParseNatToString(n: nat)
    ensures ParseNat(NatToString(n)) == n
    decreases n
  {
    var s := NatToString(n);
    if n >= 10 {
      ParseNatToString(n / 10);
      assert s[..|s| - 1] == NatToString(n / 10);
    }
  }

  /** Distinct numbers render as distinct strings. */
  lemma NatToStringInjective(m: nat, n: nat)
    requires m != n
    ensures NatToString(m) != NatToString(n)
  {
    ParseNatToString(m);
    ParseNatToString(n);
  }
}
