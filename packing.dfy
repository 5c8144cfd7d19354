/**
 * The greedy accumulation that rag.py runs in both chunking modes. Section mode splits
 * long sections this way (rag.py:167-190); paragraph mode packs the kept paragraphs
 * this way (rag.py:211-239). Paragraphs go into a running chunk, joined by a blank line.
 * When appending the next paragraph would take the chunk over ChunkLimit characters,
 * the running chunk is flushed and restarted with that paragraph. The two loops are
 * written differently but make the same decision at every step. When the running chunk
 * is empty, both simply start it with the paragraph. So one specification serves both.
 *
 * Pack is the specification on strings, faithful for every input, empty paragraphs
 * included. Groups is the same process on lists of paragraphs. It is the reference view
 * the lemmas use. For non-empty paragraphs, Pack is Groups with every group joined.
 */
module Packing {
  import opened Text

  /** The chunk size rag.py aims for (rag.py:171 and rag.py:220). */
  const ChunkLimit: nat := 1500

  /** What paragraphs are split on and joined with. */
  const ParagraphSep: string := "\n\n"

  /** The chunks flushed so far and the running chunk. */
  datatype PackState = PackState(done: seq<string>, current: string)

  /** One paragraph of the loop. */
  function PackStep(st: PackState, para: string): PackState {
    if st.current == "" then PackState(st.done, para)
    else if |st.current| + |para| > ChunkLimit then PackState(st.done + [st.current], para)
    else PackState(st.done, st.current + ParagraphSep + para)
  }

  /** The state after the loop has consumed paras. */
  function PackPrefix(paras: seq<string>): PackState
    decreases |paras|
  {
    if |paras| == 0 then PackState([], "")
    else PackStep(PackPrefix(paras[..|paras| - 1]), paras[|paras| - 1])
  }

  lemma PackPrefixSnoc(paras: seq<string>, para: string)
    ensures PackPrefix(paras + [para]) == PackStep(PackPrefix(paras), para)
  {
    assert (paras + [para])[..|paras|] == paras;
  }

  lemma PackPrefixStep(paras: seq<string>, k: nat)
    requires k < |paras|
    ensures PackPrefix(paras[..k + 1]) == PackStep(PackPrefix(paras[..k]), paras[k])
  {
    assert paras[..k + 1][..k] == paras[..k];
  }

  /** The final flush: a non-empty running chunk becomes the last chunk. */
  function Flush(st: PackState): seq<string> {
    if st.current == "" then st.done else st.done + [st.current]
  }

  /** The chunk bodies the greedy loop emits for paras. */
  function Pack(paras: seq<string>): seq<string> {
    Flush(PackPrefix(paras))
  }

  // ---------------------------------------------------------------------------------------
  // The same process on groups of paragraphs
  // ---------------------------------------------------------------------------------------

  datatype GroupState = GroupState(done: seq<seq<string>>, current: seq<string>)

  ghost function GroupStep(st: GroupState, para: string): GroupState {
    if st.current == [] then GroupState(st.done, [para])
    else if |Join(st.current, ParagraphSep)| + |para| > ChunkLimit then GroupState(st.done + [st.current], [para])
    else GroupState(st.done, st.current + [para])
  }

  ghost function GroupPrefix(paras: seq<string>): GroupState
    decreases |paras|
  {
    if |paras| == 0 then GroupState([], [])
    else GroupStep(GroupPrefix(paras[..|paras| - 1]), paras[|paras| - 1])
  }

  /** The paragraphs that make up each emitted chunk, in order. */
  ghost function Groups(paras: seq<string>): seq<seq<string>> {
    var st := GroupPrefix(paras);
    if st.current == [] then st.done else st.done + [st.current]
  }

  function JoinEach(groups: seq<seq<string>>): seq<string> {
    seq(|groups|, i requires 0 <= i < |groups| => Join(groups[i], ParagraphSep))
  }

  function SplitEach(bodies: seq<string>): seq<seq<string>> {
    seq(|bodies|, i requires 0 <= i < |bodies| => Split(bodies[i], ParagraphSep))
  }

  predicate NoEmpty(paras: seq<string>) {
    forall i :: 0 <= i < |paras| ==> paras[i] != ""
  }

  predicate AllClean(paras: seq<string>) {
    forall i :: 0 <= i < |paras| ==> Clean(paras[i], ParagraphSep)
  }

  /** Every group is non-empty, and a group's join holds a character exactly when the group does. */
  lemma JoinNonEmpty(g: seq<string>)
    requires |g| >= 1 && g[0] != ""
    ensures Join(g, ParagraphSep) != ""
  {
  }

  /** The group loop covers the paragraphs in order, and every flushed group is non-empty. */
  lemma {:induction false} GroupPrefixCovers(paras: seq<string>)
    ensures Flatten(GroupPrefix(paras).done) + GroupPrefix(paras).current == paras
    ensures forall i :: 0 <= i < |GroupPrefix(paras).done| ==> GroupPrefix(paras).done[i] != []
    decreases |paras|
  {
    if |paras| > 0 {
      var init, p := paras[..|paras| - 1], paras[|paras| - 1];
      GroupPrefixCovers(init);
      assert paras == init + [p];
      GroupStepCovers(GroupPrefix(init), p, init);
    }
  }

  /** One step of the group loop adds the paragraph at the end and flushes only a non-empty group. */
  lemma GroupStepCovers(st: GroupState, p: string, init: seq<string>)
    requires Flatten(st.done) + st.current == init
    requires forall i :: 0 <= i < |st.done| ==> st.done[i] != []
    ensures Flatten(GroupStep(st, p).done) + GroupStep(st, p).current == init + [p]
    ensures forall i :: 0 <= i < |GroupStep(st, p).done| ==> GroupStep(st, p).done[i] != []
  {
    if st.current != [] && |Join(st.current, ParagraphSep)| + |p| > ChunkLimit {
      FlattenSnoc(st.done, st.current);
    }
  }

  ghost predicate WithinBound(g: seq<string>) {
    |g| >= 2 ==> |Join(g, ParagraphSep)| <= ChunkLimit + |ParagraphSep|
  }

  /** A group only grows while its join plus the next paragraph fits ChunkLimit. */
  lemma {:induction false} GroupPrefixBound(paras: seq<string>)
    ensures forall i :: 0 <= i < |GroupPrefix(paras).done| ==> WithinBound(GroupPrefix(paras).done[i])
    ensures WithinBound(GroupPrefix(paras).current)
    decreases |paras|
  {
    if |paras| > 0 {
      var init, p := paras[..|paras| - 1], paras[|paras| - 1];
      GroupPrefixBound(init);
      var st := GroupPrefix(init);
      if st.current != [] && |Join(st.current, ParagraphSep)| + |p| <= ChunkLimit {
        JoinSnoc(st.current, p, ParagraphSep);
      }
    }
  }

  ghost predicate Overflows(g: seq<string>, next: seq<string>) {
    next != [] && |Join(g, ParagraphSep)| + |next[0]| > ChunkLimit
  }

  /** A group is flushed only when the next paragraph would take it over ChunkLimit. */
  lemma {:induction false} GroupPrefixMaximal(paras: seq<string>)
    ensures var st := GroupPrefix(paras);
      && (forall i :: 0 <= i < |st.done| - 1 ==> Overflows(st.done[i], st.done[i + 1]))
      && (|st.done| > 0 && st.current != [] ==> Overflows(st.done[|st.done| - 1], st.current))
      && (|st.done| > 0 ==> st.current != [])
    decreases |paras|
  {
    if |paras| > 0 {
      var init, p := paras[..|paras| - 1], paras[|paras| - 1];
      GroupPrefixMaximal(init);
    }
  }

  /**
   * The emitted chunks, seen as groups of paragraphs: the groups cover the paragraphs in
   * order with none lost, none is empty, a chunk of two or more paragraphs is at most
   * ChunkLimit + 2 characters, and a chunk was flushed only because its successor's first
   * paragraph would not fit.
   */
  lemma GroupsPartition(paras: seq<string>)
    ensures Flatten(Groups(paras)) == paras
    ensures forall i :: 0 <= i < |Groups(paras)| ==> Groups(paras)[i] != []
    ensures forall i :: 0 <= i < |Groups(paras)| && |Groups(paras)[i]| >= 2 ==>
              |Join(Groups(paras)[i], ParagraphSep)| <= ChunkLimit + 2
    ensures forall i :: 0 <= i < |Groups(paras)| - 1 ==>
              |Join(Groups(paras)[i], ParagraphSep)| + |Groups(paras)[i + 1][0]| > ChunkLimit
  {
    GroupPrefixCovers(paras);
    GroupPrefixBound(paras);
    GroupPrefixMaximal(paras);
    var st := GroupPrefix(paras);
    FlushedGroups(st.done, st.current, paras);
  }

  /** The final flush keeps what the group loop guarantees about its groups. */
  lemma FlushedGroups(done: seq<seq<string>>, current: seq<string>, paras: seq<string>)
    requires Flatten(done) + current == paras
    requires forall i :: 0 <= i < |done| ==> done[i] != [] && WithinBound(done[i])
    requires WithinBound(current)
    requires forall i :: 0 <= i < |done| - 1 ==> Overflows(done[i], done[i + 1])
    requires |done| > 0 && current != [] ==> Overflows(done[|done| - 1], current)
    requires |done| > 0 ==> current != []
    ensures var g := if current == [] then done else done + [current];
      && Flatten(g) == paras
      && (forall i :: 0 <= i < |g| ==> g[i] != [] && WithinBound(g[i]))
      && (forall i :: 0 <= i < |g| - 1 ==> Overflows(g[i], g[i + 1]))
  {
    if current != [] {
      FlattenSnoc(done, current);
      var g := done + [current];
      forall i | 0 <= i < |g| - 1
        ensures Overflows(g[i], g[i + 1])
      {
        if i < |done| - 1 {
          assert g[i] == done[i] && g[i + 1] == done[i + 1];
        }
      }
    } else {
      assert |done| == 0;
      assert current == paras;
    }
  }

  /** For non-empty paragraphs the string loop is the group loop with every group joined. */
  lemma {:induction false} PackPrefixFollowsGroups(paras: seq<string>)
    requires NoEmpty(paras)
    ensures PackPrefix(paras).done == JoinEach(GroupPrefix(paras).done)
    ensures PackPrefix(paras).current == (if GroupPrefix(paras).current == [] then ""
                                          else Join(GroupPrefix(paras).current, ParagraphSep))
    ensures GroupPrefix(paras).current != [] ==> GroupPrefix(paras).current[0] != ""
    decreases |paras|
  {
    if |paras| > 0 {
      var init, p := paras[..|paras| - 1], paras[|paras| - 1];
      assert NoEmpty(init);
      PackPrefixFollowsGroups(init);
      var st := GroupPrefix(init);
      if st.current == [] {
      } else {
        JoinNonEmpty(st.current);
        if |Join(st.current, ParagraphSep)| + |p| > ChunkLimit {
          assert JoinEach(st.done + [st.current]) == JoinEach(st.done) + [Join(st.current, ParagraphSep)];
        } else {
          JoinSnoc(st.current, p, ParagraphSep);
        }
      }
    }
  }

  /** For non-empty paragraphs, each emitted chunk is the join of its group. */
  lemma PackIsJoinedGroups(paras: seq<string>)
    requires NoEmpty(paras)
    ensures Pack(paras) == JoinEach(Groups(paras))
  {
    PackPrefixFollowsGroups(paras);
    var st := GroupPrefix(paras);
    if st.current != [] {
      assert JoinEach(st.done + [st.current]) == JoinEach(st.done) + [Join(st.current, ParagraphSep)];
    }
  }

  lemma {:induction false} JoinFlatten(groups: seq<seq<string>>)
    requires forall i :: 0 <= i < |groups| ==> groups[i] != []
    ensures Join(JoinEach(groups), ParagraphSep) == Join(Flatten(groups), ParagraphSep)
    decreases |groups|
  {
    if |groups| > 1 {
      var rest := groups[1..];
      JoinFlatten(rest);
      assert JoinEach(groups)[1..] == JoinEach(rest);
      assert |Flatten(rest)| >= 1 by { assert rest[0] != []; }
      JoinConcat(groups[0], Flatten(rest), ParagraphSep);
    } else if |groups| == 1 {
      assert groups[1..] == [];
      assert Flatten(groups) == groups[0] + Flatten(groups[1..]);
      assert Flatten(groups[1..]) == [];
      assert Flatten(groups) == groups[0];
      assert JoinEach(groups) == [Join(groups[0], ParagraphSep)];
    }
  }

  lemma {:induction false} FlattenMember(groups: seq<seq<string>>, i: nat, j: nat)
    requires i < |groups| && j < |groups[i]|
    ensures groups[i][j] in Flatten(groups)
    decreases i
  {
    if i > 0 {
      FlattenMember(groups[1..], i - 1, j);
    }
  }

  /** When no paragraph is empty, the chunks joined by blank lines give back the paragraphs joined by blank lines. */
  lemma PackKeepsText(paras: seq<string>)
    requires NoEmpty(paras)
    ensures Join(Pack(paras), ParagraphSep) == Join(paras, ParagraphSep)
  {
    PackIsJoinedGroups(paras);
    GroupsPartition(paras);
    JoinFlatten(Groups(paras));
  }

  /** When no paragraph is empty and each is Clean, splitting the chunks on blank lines gives back the paragraphs, in order. */
  lemma PackSplitsBack(paras: seq<string>)
    requires NoEmpty(paras) && AllClean(paras)
    ensures SplitEach(Pack(paras)) == Groups(paras)
    ensures Flatten(SplitEach(Pack(paras))) == paras
  {
    PackIsJoinedGroups(paras);
    GroupsPartition(paras);
    var groups := Groups(paras);
    forall i | 0 <= i < |groups|
      ensures Split(Join(groups[i], ParagraphSep), ParagraphSep) == groups[i]
    {
      forall j | 0 <= j < |groups[i]|
        ensures Clean(groups[i][j], ParagraphSep)
      {
        FlattenMember(groups, i, j);
      }
      SplitJoin(groups[i], ParagraphSep);
    }
  }

  /** Under the same conditions, a chunk made of two or more paragraphs is at most ChunkLimit + 2 characters. */
  lemma PackBound(paras: seq<string>)
    requires NoEmpty(paras) && AllClean(paras)
    ensures forall i :: 0 <= i < |Pack(paras)| && |Split(Pack(paras)[i], ParagraphSep)| >= 2 ==>
              |Pack(paras)[i]| <= ChunkLimit + 2
  {
    PackSplitsBack(paras);
    PackIsJoinedGroups(paras);
    GroupsPartition(paras);
    var groups := Groups(paras);
    forall i | 0 <= i < |Pack(paras)| && |Split(Pack(paras)[i], ParagraphSep)| >= 2
      ensures |Pack(paras)[i]| <= ChunkLimit + 2
    {
      assert SplitEach(Pack(paras))[i] == Split(Pack(paras)[i], ParagraphSep);
      assert Pack(paras)[i] == Join(groups[i], ParagraphSep);
    }
  }

  /** No paragraphs, no chunks. */
  lemma PackEmpty()
    ensures Pack([]) == []
  {
  }

  /** A chunk is never empty when no paragraph is. */
  lemma PackNoEmptyChunk(paras: seq<string>)
    requires NoEmpty(paras)
    ensures NoEmpty(Pack(paras))
  {
    PackIsJoinedGroups(paras);
    GroupsPartition(paras);
    var groups := Groups(paras);
    forall i | 0 <= i < |groups|
      ensures Join(groups[i], ParagraphSep) != ""
    {
      FlattenMember(groups, i, 0);
      JoinNonEmpty(groups[i]);
    }
  }

  /** A string without a blank-line separator that does not end with a newline is Clean. */
  lemma NoSepIsClean(p: string)
    requires Find(p, ParagraphSep, false).None?
    requires |p| > 0 ==> p[|p| - 1] != '\n'
    ensures Clean(p, ParagraphSep)
  {
    forall k | 0 <= k < |p|
      ensures !MatchesAt(p + ParagraphSep, k, ParagraphSep, false)
    {
      if k + 2 <= |p| {
        MatchesInLeft(p, ParagraphSep, k, ParagraphSep, false);
      } else {
        assert (p + ParagraphSep)[k] == p[|p| - 1] && ParagraphSep[0] == '\n';
      }
    }
  }

  /** A stripped paragraph taken from a split on blank lines is Clean. */
  lemma StrippedIsClean(p: string)
    requires Find(p, ParagraphSep, false).None?
    ensures Clean(Strip(p), ParagraphSep)
  {
    var q, lo, hi := Strip(p), StripStart(p), StripEnd(p);
    assert p == p[..lo] + (q + p[hi..]);
    var r := Find(q, ParagraphSep, false);
    if r.Some? {
      var k := r.value;
      MatchesInLeft(q, p[hi..], k, ParagraphSep, false);
      MatchesInRight(p[..lo], q + p[hi..], k, ParagraphSep, false);
      assert false;
    }
    if |q| > 0 {
      assert !IsSpace(q[|q| - 1]);
    }
    NoSepIsClean(q);
  }

  /** Every paragraph of a split of a stripped text is Clean. */
  lemma SplitOfStrippedIsClean(s: string)
    requires s == "" || !IsSpace(s[|s| - 1])
    ensures AllClean(Split(s, ParagraphSep))
  {
    var parts := Split(s, ParagraphSep);
    JoinEndsWithLast(parts, ParagraphSep);
    LastPartClean(s, parts[|parts| - 1]);
    CleanBeforeLast(parts);
  }

  /** Parts that are Clean before the last, and a Clean last part, are all Clean. */
  lemma CleanBeforeLast(parts: seq<string>)
    requires |parts| >= 1 && Clean(parts[|parts| - 1], ParagraphSep)
    requires forall i :: 0 <= i < |parts| - 1 ==> Clean(parts[i], ParagraphSep)
    ensures AllClean(parts)
  {
  }

  lemma LastPartClean(s: string, last: string)
    requires s == "" || !IsSpace(s[|s| - 1])
    requires |last| <= |s| && s[|s| - |last|..] == last
    requires Find(last, ParagraphSep, false).None?
    ensures Clean(last, ParagraphSep)
  {
    SuffixLastChar(s, last);
    NoSepIsClean(last);
  }

  /** A non-empty suffix ends with the string's last character. */
  lemma SuffixLastChar(s: string, t: string)
    requires |t| <= |s| && s[|s| - |t|..] == t
    ensures |t| > 0 ==> t[|t| - 1] == s[|s| - 1]
  {
    if |t| > 0 {
      assert s[|s| - |t|..][|t| - 1] == s[|s| - 1];
    }
  }

  /** Two paragraphs that fit together make one chunk. */
  lemma PackTwo(a: string, b: string)
    requires a != "" && |a| + |b| <= ChunkLimit
    ensures Pack([a, b]) == [a + ParagraphSep + b]
  {
    assert [a, b][..1] == [a];
    assert [a][..0] == [];
    assert PackPrefix([a]) == PackState([], a);
    assert PackPrefix([a, b]) == PackState([], a + ParagraphSep + b);
  }
}
