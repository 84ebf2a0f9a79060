/** The whole miner (`caculate_hotwords`): index the text, search from every frequent
    character, count the emitted words, drop the redundant ones, rank the rest and print the
    top of the ranking. */
module Hotwords {
  import opened Text
  import opened Seqs
  import opened StringIO
  import opened ScopeIndex
  import opened SuffixSearch
  import opened Aggregate
  import opened Redundancy
  import opened Rank

  /** Where reading starts: the buffer's position, or its end when the position is past it. */
  function Start(pos: nat, t: string): (lo: nat)
    ensures lo <= |t| && (pos <= |t| ==> lo == pos)
  {
    if pos <= |t| then pos else |t|
  }

  /** `w` is the piece of `t` that starts at position `i`. */
  ghost predicate OccursAt(w: string, t: string, i: nat) {
    i + |w| <= |t| && t[i..i + |w|] == w
  }

  /** `w` is a hot-word shape found in `t[lo..]`: at least two qualifying characters that
      appear together somewhere in that part of the text, starting with a character that
      occurs there more than twice. */
  ghost predicate FoundIn(w: string, t: string, lo: nat)
    requires lo <= |t|
  {
    && |w| >= 2
    && (forall j :: 0 <= j < |w| ==> Qualifies(w[j]))
    && multiset(t[lo..])[w[0]] > 2
    && exists i :: lo <= i && OccursAt(w, t, i)
  }

  /** The character at `i` followed by the start of the scope read after it. */
  lemma ScopePiece(t: string, i: nat, depth: int, w: string)
    requires i < |t| && w != [] && t[i] == w[0] && Extends(w, [w[0]], Scope(t, i, depth))
    ensures OccursAt(w, t, i)
  {
    var s := Scope(t, i, depth);
    var k := |w| - 1;
    assert s[..k] == t[i + 1..i + 1 + k];
    assert w == [w[0]] + w[1..];
    assert t[i..i + |w|] == [t[i]] + t[i + 1..i + 1 + k];
  }

  /** A word that extends a character by the start of one of that character's scopes is a
      piece of the text. */
  lemma ScopeWordInText(t: string, lo: nat, depth: int, w: string)
    requires lo <= |t| && w != []
    requires exists s :: s in ScopesOf(t, lo, |t|, w[0], depth) && Extends(w, [w[0]], s)
    ensures exists i :: lo <= i && OccursAt(w, t, i)
  {
    var s :| s in ScopesOf(t, lo, |t|, w[0], depth) && Extends(w, [w[0]], s);
    ScopesOfSound(t, lo, |t|, w[0], depth);
    var i :| lo <= i < |t| && t[i] == w[0] && s == Scope(t, i, depth);
    ScopePiece(t, i, depth, w);
  }

  /** A list with distinct words stays so when rearranged. */
  lemma PermutedDistinctWords(a: seq<Candidate>, b: seq<Candidate>)
    requires multiset(a) == multiset(b) && DistinctWords(a)
    ensures DistinctWords(b)
  {
    assert Distinct(a);
    DistinctPermutation(a, b);
    forall i, j | 0 <= i < j < |b| ensures b[i].word != b[j].word {
      assert b[i] in multiset(a) && b[j] in multiset(a);
      var i' :| 0 <= i' < |a| && a[i'] == b[i];
      var j' :| 0 <= j' < |a| && a[j'] == b[j];
      assert i' != j';
    }
  }

  /** Every emitted word is a hot-word shape found in the text. */
  lemma {:induction false} EmittedFound(t: string, lo: nat, depth: int, chars: seq<char>,
                                        index: map<char, CharEntry>)
    requires lo <= |t|
    requires forall c :: c in chars ==>
      && c in index && Qualifies(c) && multiset(t[lo..])[c] > 2
      && index[c].scopes == ScopesOf(t, lo, |t|, c, depth)
    ensures forall w :: w in Emitted(chars, index) ==> FoundIn(w, t, lo)
  {
    EmittedShape(chars, index);
    forall w | w in Emitted(chars, index) ensures FoundIn(w, t, lo) {
      ScopeWordInText(t, lo, depth, w);
    }
  }

  /** The candidates are exactly the words emitted more than once, each with its number of
      emissions, and no word is a candidate twice. */
  lemma CandidatesOfEmitted(keys: seq<string>, counts: map<string, nat>, emitted: seq<string>)
    requires forall w :: w in counts <==> w in emitted
    requires forall w :: w in counts ==> counts[w] == multiset(emitted)[w]
    requires keys == Dedup(emitted)
    requires forall w :: w in counts <==> w in keys
    ensures forall x :: x in Recurring(keys, counts) <==>
      x.word in emitted && x.freq == multiset(emitted)[x.word] && x.freq >= 2
    ensures DistinctWords(Recurring(keys, counts))
  {
    RecurringDistinct(keys, counts);
    forall x ensures x in Recurring(keys, counts) <==>
      x.word in emitted && x.freq == multiset(emitted)[x.word] && x.freq >= 2
    {
      if x.word in emitted {
        assert x.word in multiset(emitted);
      }
    }
  }

  /** The words kept after stripping: exactly the candidates that no kept word dominates
      (ends with them and is at least as frequent), with no word twice and no kept word
      ending another kept one that is at least as frequent. */
  lemma KeptOfEmitted(list: seq<Candidate>, emitted: seq<string>)
    requires forall x :: x in list <==>
      x.word in emitted && x.freq == multiset(emitted)[x.word] && x.freq >= 2
    requires forall w :: w in emitted ==> |w| >= 2
    requires DistinctWords(list)
    ensures forall x :: x in Strip(list) <==>
      && x.word in emitted
      && x.freq == multiset(emitted)[x.word] && x.freq >= 2
      && !exists y :: y in Strip(list) && Dominates(y, x)
    ensures DistinctWords(Strip(list)) && NoRedundantPair(Strip(list))
  {
    StripSound(list);
    StripFixpoint(list);
  }

  /** Every entry of a part of the ranking is a kept word. */
  lemma RankedMembers(kept: seq<Candidate>, part: seq<Candidate>)
    requires forall x :: x in part ==> x in Ranked(kept)
    ensures forall x :: x in part ==> x in kept
  {
    forall x | x in part ensures x in kept {
      assert x in multiset(Ranked(kept));
    }
  }

  /** A kept word outside the top of the ranking lies below it. */
  lemma RankedRest(kept: seq<Candidate>, limit: int, y: Candidate)
    requires y in kept && y !in Top(Ranked(kept), limit)
    ensures y in Ranked(kept)[..|Ranked(kept)| - |Top(Ranked(kept), limit)|]
  {
    var ranked := Ranked(kept);
    var k := |ranked| - |Top(ranked, limit)|;
    assert y in multiset(ranked);
    var j :| 0 <= j < |ranked| && ranked[j] == y;
    assert j < k && ranked[..k][j] == y;
  }

  /** What is printed: at most `limit` entries when the limit is positive, in ranking order,
      each a kept word and none twice, and each ranking at or above every kept word that is
      not printed. */
  lemma PrintedOfKept(kept: seq<Candidate>, limit: int)
    requires DistinctWords(kept)
    ensures var printed := Top(Ranked(kept), limit);
      && (limit > 0 ==> |printed| <= limit)
      && Sorted(printed, RankLe) && DistinctWords(printed)
      && (forall x :: x in printed ==> x in kept)
      && forall x, y :: x in printed && y in kept && y !in printed ==> RankLe(y, x)
  {
    var ranked := Ranked(kept);
    var printed := Top(ranked, limit);
    TopOutranksRest(ranked, limit);
    PermutedDistinctWords(kept, ranked);
    RankedMembers(kept, printed);
    forall x, y | x in printed && y in kept && y !in printed ensures RankLe(y, x) {
      RankedRest(kept, limit, y);
    }
  }

  /** The candidate entries of a list of emitted words: each word emitted at least twice,
      with its number of emissions. */
  ghost function CandidateSet(emitted: seq<string>): (r: set<Candidate>)
    ensures forall x :: x in r <==>
      x.word in emitted && x.freq == multiset(emitted)[x.word] && x.freq >= 2
  {
    var r := set w | w in emitted && multiset(emitted)[w] >= 2 :: Candidate(w, multiset(emitted)[w]);
    assert forall x: Candidate ::
      (x.word in emitted && x.freq == multiset(emitted)[x.word] && x.freq >= 2)
      ==> x == Candidate(x.word, multiset(emitted)[x.word]);
    r
  }

  /** What is printed depends on the emitted words only through how often each is emitted:
      the order in which the characters are searched (`char_rank_sort`) does not change the
      output. The order of ties in the stripping sort is covered by `TieOrderIrrelevant`. */
  lemma PrintedDeterminedByEmissions(emitted1: seq<string>, kept1: seq<Candidate>,
                                     emitted2: seq<string>, kept2: seq<Candidate>, limit: int)
    requires multiset(emitted1) == multiset(emitted2)
    requires forall x :: x in kept1 <==>
      && x.word in emitted1
      && x.freq == multiset(emitted1)[x.word] && x.freq >= 2
      && !exists y :: y in kept1 && Dominates(y, x)
    requires forall x :: x in kept2 <==>
      && x.word in emitted2
      && x.freq == multiset(emitted2)[x.word] && x.freq >= 2
      && !exists y :: y in kept2 && Dominates(y, x)
    requires DistinctWords(kept1) && DistinctWords(kept2)
    ensures Top(Ranked(kept1), limit) == Top(Ranked(kept2), limit)
  {
    var data := CandidateSet(emitted1);
    assert data == CandidateSet(emitted2) by {
      forall w ensures w in emitted1 <==> w in emitted2 {
        assert w in emitted1 <==> w in multiset(emitted1);
        assert w in emitted2 <==> w in multiset(emitted2);
      }
    }
    assert FixpointOf(data, kept1) && FixpointOf(data, kept2);
    var bound := MaxLen(emitted1);
    forall x ensures x in kept1 <==> x in kept2 {
      FixpointUnique(data, kept1, kept2, bound, x);
    }
    DistinctSameElements(kept1, kept2);
    RankedUnique(Ranked(kept1), Ranked(kept2));
  }

  /** Every word the searches emit on `t[lo..]`: the character map of that text is built, its
      frequent characters are sorted most frequent first, and each one's suffix search runs
      on its scopes, one after the other. */
  function Emissions(t: string, lo: nat, depth: int): seq<string>
    requires lo <= |t|
  {
    var index := IndexOf(t, lo, depth);
    Emitted(ByFrequency(Frequent(Dedup(QualifyingIn(t, lo, |t|)), index), index), index)
  }

  /** The word counter after counting `emitted`: each word mapped to its number of
      occurrences. */
  function Tally(emitted: seq<string>): (counts: map<string, nat>)
    ensures forall w :: w in counts <==> w in emitted
  {
    map w | w in emitted :: multiset(emitted)[w]
  }

  /** A counter that holds exactly the emitted words, each with its number of occurrences,
      is the tally of those words. */
  lemma TallyEquals(counts: map<string, nat>, emitted: seq<string>)
    requires forall w :: w in counts <==> w in emitted
    requires forall w :: w in counts ==> counts[w] == multiset(emitted)[w]
    ensures counts == Tally(emitted)
  {
    assert forall w :: w in counts ==> counts[w] == Tally(emitted)[w];
  }

  /** The candidate list of `t[lo..]`: the counted words in first-emitted order, except those
      emitted only once. */
  function CandidatesIn(t: string, lo: nat, depth: int): seq<Candidate>
    requires lo <= |t|
  {
    var emitted := Emissions(t, lo, depth);
    Recurring(Dedup(emitted), Tally(emitted))
  }

  /** What the miner prints for `t[lo..]`: the top of the ranking of the candidates left
      after stripping. */
  function HotwordsIn(t: string, lo: nat, depth: int, limit: int): seq<Candidate>
    requires lo <= |t|
  {
    Top(Ranked(Strip(CandidatesIn(t, lo, depth))), limit)
  }

  /** The candidates of a text are exactly its words emitted at least twice, with their
      emission counts, none twice. */
  lemma CandidatesInEmitted(t: string, lo: nat, depth: int)
    requires lo <= |t|
    ensures var emitted := Emissions(t, lo, depth);
      && (forall x :: x in CandidatesIn(t, lo, depth) <==>
            x.word in emitted && x.freq == multiset(emitted)[x.word] && x.freq >= 2)
      && DistinctWords(CandidatesIn(t, lo, depth))
  {
    var emitted := Emissions(t, lo, depth);
    CandidatesOfEmitted(Dedup(emitted), Tally(emitted), emitted);
  }

  /** Every word the searches emit on a text is a hot-word shape found in that text. */
  lemma EmissionsFound(t: string, lo: nat, depth: int)
    requires lo <= |t|
    ensures forall w :: w in Emissions(t, lo, depth) ==> FoundIn(w, t, lo)
  {
    var index := IndexOf(t, lo, depth);
    var order := Dedup(QualifyingIn(t, lo, |t|));
    var frequent := Frequent(order, index);
    var chars := ByFrequency(frequent, index);
    forall c | c in chars
      ensures && c in index && Qualifies(c) && multiset(t[lo..])[c] > 2
              && index[c].scopes == ScopesOf(t, lo, |t|, c, depth)
    {
      assert c in frequent;
      IndexOfEntry(t, lo, depth, c);
    }
    EmittedFound(t, lo, depth, chars, index);
  }

  /** What the miner prints for a text: at most `limit` entries when the limit is positive,
      in ranking order and none twice, each a word found in the text, emitted at least twice,
      with its emission count and dominated by no kept word, and each ranking at or above
      every kept word not printed. */
  lemma HotwordsInSound(t: string, lo: nat, depth: int, limit: int)
    requires lo <= |t|
    ensures var emitted := Emissions(t, lo, depth);
      var kept := Strip(CandidatesIn(t, lo, depth));
      var printed := HotwordsIn(t, lo, depth, limit);
      && (limit > 0 ==> |printed| <= limit)
      && Sorted(printed, RankLe) && DistinctWords(printed)
      && NoRedundantPair(kept)
      && (forall x :: x in kept <==>
            x in CandidatesIn(t, lo, depth) && !exists y :: y in kept && Dominates(y, x))
      && (forall x :: x in printed ==>
            && x in kept
            && FoundIn(x.word, t, lo)
            && x.freq == multiset(emitted)[x.word] && x.freq >= 2
            && !exists y :: y in kept && Dominates(y, x))
      && forall x, y :: x in printed && y in kept && y !in printed ==> RankLe(y, x)
  {
    var emitted := Emissions(t, lo, depth);
    var list := CandidatesIn(t, lo, depth);
    CandidatesInEmitted(t, lo, depth);
    EmissionsFound(t, lo, depth);
    KeptOfEmitted(list, emitted);
    StripFixpoint(list);
    PrintedOfKept(Strip(list), limit);
  }

  /** The printed words do not depend on how the tag sort of `strip_redundants` orders
      entries that tie: the walk over any sorted arrangement of the tagged candidates keeps
      the same words as `Strip`, so the ranking and its top are the same. */
  lemma TieOrderIrrelevant(t: string, lo: nat, depth: int, sorted: seq<Tagged>, limit: int)
    requires lo <= |t|
    requires multiset(sorted) == multiset(Tagging(CandidatesIn(t, lo, depth)))
    requires Sorted(sorted, Before)
    ensures Top(Ranked(Walk(sorted, |sorted|).result), limit) == HotwordsIn(t, lo, depth, limit)
  {
    var emitted := Emissions(t, lo, depth);
    var list := CandidatesIn(t, lo, depth);
    CandidatesInEmitted(t, lo, depth);
    EmissionsFound(t, lo, depth);
    SortedWalkSound(list, sorted);
    StripSound(list);
    StripFixpoint(list);
    var kept1 := Walk(sorted, |sorted|).result;
    var kept2 := Strip(list);
    var data := set c | c in list;
    var bound := MaxLen(emitted);
    forall x ensures x in kept1 <==> x in kept2 {
      FixpointUnique(data, kept1, kept2, bound, x);
    }
    DistinctSameElements(kept1, kept2);
    RankedUnique(Ranked(kept1), Ranked(kept2));
  }

  /** Stages 1 to 3: index the text, search from the frequent characters (most frequent
      first) and keep the words emitted more than once. */
  method MineCandidates(b: StringBuffer, depth: int)
    returns (list: seq<Candidate>, ghost emitted: seq<string>)
    modifies b
    ensures b.pos == if old(b.pos) <= |b.text| then |b.text| else old(b.pos)
    ensures emitted == Emissions(b.text, Start(old(b.pos), b.text), depth)
    ensures list == CandidatesIn(b.text, Start(old(b.pos), b.text), depth)
    ensures forall w :: w in emitted ==> FoundIn(w, b.text, Start(old(b.pos), b.text))
    ensures forall x :: x in list <==>
      x.word in emitted && x.freq == multiset(emitted)[x.word] && x.freq >= 2
    ensures DistinctWords(list)
  {
    ghost var t := b.text;
    ghost var lo := Start(b.pos, t);
    var index, order := BuildScopeIndex(b, depth);
    assert index == IndexOf(t, lo, depth) && order == Dedup(QualifyingIn(t, lo, |t|));
    var chars := FrequentChars(order, index);
    chars := ByFrequency(chars, index);
    var counts, keys := CountEmissions(chars, index);
    emitted := Emitted(chars, index);
    assert emitted == Emissions(t, lo, depth);
    list := Candidates(keys, counts);
    TallyEquals(counts, emitted);
    assert list == CandidatesIn(t, lo, depth);
    EmissionsFound(t, lo, depth);
    CandidatesInEmitted(t, lo, depth);
  }

  /** The miner on the text from the buffer's position on, with `depth` as the search depth
      and `limit` as the largest number of results (all results when not positive), the
      limit capped at the number of results. `emitted` is every word the searches emit,
      `kept` the list left after the redundant words are stripped, and `printed` what is
      printed, in printing order. */
  method CalculateHotwords(b: StringBuffer, depth: int, limit: int)
    returns (printed: seq<Candidate>, ghost emitted: seq<string>, ghost kept: seq<Candidate>)
    modifies b
    ensures b.pos == if old(b.pos) <= |b.text| then |b.text| else old(b.pos)
    ensures emitted == Emissions(b.text, Start(old(b.pos), b.text), depth)
    ensures kept == Strip(CandidatesIn(b.text, Start(old(b.pos), b.text), depth))
    ensures printed == HotwordsIn(b.text, Start(old(b.pos), b.text), depth, limit)
    ensures forall w :: w in emitted ==> FoundIn(w, b.text, Start(old(b.pos), b.text))
    ensures forall x :: x in kept <==>
      && x.word in emitted
      && x.freq == multiset(emitted)[x.word] && x.freq >= 2
      && !exists y :: y in kept && Dominates(y, x)
    ensures DistinctWords(kept) && NoRedundantPair(kept)
    ensures printed == Top(Ranked(kept), limit)
    ensures limit > 0 ==> |printed| <= limit
    ensures Sorted(printed, RankLe) && DistinctWords(printed)
    ensures forall x :: x in printed ==> x in kept
    ensures forall x, y :: x in printed && y in kept && y !in printed ==> RankLe(y, x)
  {
    var list;
    list, emitted := MineCandidates(b, depth);
    var survivors := StripRedundants(list);
    kept := survivors;
    assert forall w :: w in emitted ==> |w| >= 2;
    KeptOfEmitted(list, emitted);
    var ranked := Ranked(survivors);
    printed := PrintTop(ranked, limit);
    PrintedOfKept(kept, limit);
  }
}
