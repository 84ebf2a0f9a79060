/** Stage 3 of the miner: every frequent character's suffix search is run, the words it
    emits are counted across all searches, and only words emitted more than once become
    candidates. */
module Aggregate {
  import opened Text
  import opened Seqs
  import opened ScopeIndex
  import opened SuffixSearch

  /** All words emitted by the searches started from `chars`, in order. */
  function Emitted(chars: seq<char>, index: map<char, CharEntry>): seq<string>
    requires forall c :: c in chars ==> c in index
  {
    if chars == [] then []
    else
      var c := chars[|chars| - 1];
      Emitted(chars[..|chars| - 1], index) + Search(index[c].scopes, [c])
  }

  /** The words the search from `c` emits: at least two characters, `c` first, every
      character qualifying, and the rest the start of one of `c`'s scopes. */
  lemma SearchFromShape(c: char, index: map<char, CharEntry>)
    requires c in index && Qualifies(c)
    ensures forall w :: w in Search(index[c].scopes, [c]) ==>
      && |w| >= 2 && w[0] == c
      && (forall j :: 0 <= j < |w| ==> Qualifies(w[j]))
      && exists s :: s in index[c].scopes && Extends(w, [c], s)
  {
    SearchShape(index[c].scopes, [c]);
    forall w | w in Search(index[c].scopes, [c])
      ensures w[0] == c && forall j :: 0 <= j < |w| ==> Qualifies(w[j])
    {
      assert w[..1] == [c];
      assert w[0] == w[..1][0];
    }
  }

  /** Every emitted word has at least two characters, starts with one of the searched
      characters and consists of qualifying characters only. */
  lemma {:induction false} EmittedShape(chars: seq<char>, index: map<char, CharEntry>)
    requires forall c :: c in chars ==> c in index && Qualifies(c)
    ensures forall w :: w in Emitted(chars, index) ==>
      && |w| >= 2 && w[0] in chars
      && (forall j :: 0 <= j < |w| ==> Qualifies(w[j]))
      && exists s :: s in index[w[0]].scopes && Extends(w, [w[0]], s)
  {
    if chars != [] {
      var init := chars[..|chars| - 1];
      var c := chars[|chars| - 1];
      EmittedShape(init, index);
      SearchFromShape(c, index);
    }
  }

  /** The words of `found[c]` for every `c` of `chars`, one list after the other. */
  function Joined(chars: seq<char>, found: map<char, seq<string>>): seq<string>
    requires forall c :: c in chars ==> c in found
  {
    if chars == [] then []
    else Joined(chars[..|chars| - 1], found) + found[chars[|chars| - 1]]
  }

  /** The search results of all indexed characters. */
  function Found(index: map<char, CharEntry>): (found: map<char, seq<string>>)
    ensures forall c :: c in found <==> c in index
  {
    map c | c in index :: Search(index[c].scopes, [c])
  }

  /** The emitted words are the search results joined in the order of the characters. */
  lemma {:induction false} EmittedJoined(chars: seq<char>, index: map<char, CharEntry>)
    requires forall c :: c in chars ==> c in index
    ensures Emitted(chars, index) == Joined(chars, Found(index))
  {
    if chars != [] {
      var c := chars[|chars| - 1];
      EmittedJoined(chars[..|chars| - 1], index);
      assert Found(index)[c] == Search(index[c].scopes, [c]);
    }
  }

  lemma {:induction false} JoinedConcat(xs: seq<char>, ys: seq<char>, found: map<char, seq<string>>)
    requires forall c :: c in xs ==> c in found
    requires forall c :: c in ys ==> c in found
    ensures Joined(xs + ys, found) == Joined(xs, found) + Joined(ys, found)
  {
    if ys == [] {
      assert xs + ys == xs;
    } else {
      var init := ys[..|ys| - 1];
      assert (xs + ys)[..|xs + ys| - 1] == xs + init;
      JoinedConcat(xs, init, found);
    }
  }

  /** One more character, wherever it stands, adds its results to the joined lists. */
  lemma JoinedAround(before: seq<char>, c: char, after: seq<char>, found: map<char, seq<string>>)
    requires forall d :: d in before + [c] + after ==> d in found
    ensures multiset(Joined(before + [c] + after, found))
         == multiset(Joined(before + after, found)) + multiset(found[c])
  {
    var a, b := Joined(before, found), Joined(after, found);
    assert Joined(before + [c], found) == a + found[c] by {
      assert (before + [c])[..|before + [c]| - 1] == before;
    }
    JoinedConcat(before + [c], after, found);
    JoinedConcat(before, after, found);
    MultisetMiddle(a, found[c], b);
  }

  lemma {:induction false} JoinedPermutation(xs: seq<char>, ys: seq<char>, found: map<char, seq<string>>)
    requires forall c :: c in xs ==> c in found
    requires multiset(xs) == multiset(ys)
    ensures forall c :: c in ys ==> c in found
    ensures multiset(Joined(xs, found)) == multiset(Joined(ys, found))
    decreases |xs|
  {
    assert forall c :: c in ys ==> c in found by {
      forall c | c in ys ensures c in found {
        assert c in multiset(xs);
      }
    }
    if xs == [] {
      assert |multiset(ys)| == 0;
    } else {
      var c := xs[|xs| - 1];
      var init := xs[..|xs| - 1];
      assert c in multiset(ys);
      var k :| 0 <= k < |ys| && ys[k] == c;
      var before, after := ys[..k], ys[k + 1..];
      assert ys == before + [c] + after;
      RemoveMatching(xs, ys, k);
      JoinedPermutation(init, before + after, found);
      JoinedAround(before, c, after, found);
    }
  }

  /** The emitted words, counted with repetition, do not depend on the order in which the
      characters are searched. */
  lemma EmittedPermutation(xs: seq<char>, ys: seq<char>, index: map<char, CharEntry>)
    requires forall c :: c in xs ==> c in index
    requires multiset(xs) == multiset(ys)
    ensures forall c :: c in ys ==> c in index
    ensures multiset(Emitted(xs, index)) == multiset(Emitted(ys, index))
  {
    JoinedPermutation(xs, ys, Found(index));
    EmittedJoined(xs, index);
    EmittedJoined(ys, index);
  }

  /** The word counter after the words of `seen`: its keys in first-seen order (`order`), and
      each count equal to the number of occurrences. */
  ghost predicate Tallied(seen: seq<string>, counts: map<string, nat>, order: seq<string>) {
    && (forall w :: w in counts <==> w in order)
    && order == Dedup(seen)
    && forall w :: w in counts ==> counts[w] == multiset(seen)[w]
  }

  /** Entering a new word with 0 and then incrementing it is one update of the counter. */
  lemma EnterThenIncrement(counts: map<string, nat>, w: string,
                           mid: map<string, nat>, counts': map<string, nat>)
    requires mid == if w in counts then counts else counts[w := 0]
    requires counts' == mid[w := mid[w] + 1]
    ensures counts' == counts[w := (if w in counts then counts[w] else 0) + 1]
  {
  }

  lemma TallyStep(seen: seq<string>, counts: map<string, nat>, order: seq<string>, w: string,
                  counts': map<string, nat>, order': seq<string>)
    requires Tallied(seen, counts, order)
    requires order' == if w in counts then order else order + [w]
    requires counts' == counts[w := (if w in counts then counts[w] else 0) + 1]
    ensures Tallied(seen + [w], counts', order')
  {
    DedupSnoc(seen, w);
    assert multiset(seen + [w]) == multiset(seen) + multiset{w};
    forall v | v in counts'
      ensures counts'[v] == multiset(seen + [w])[v]
    {
      if v != w {
        assert counts'[v] == counts[v];
      }
    }
  }

  /** The inner `strip_map` loop: counts the words of one search result. */
  method TallyWords(result: seq<string>, counts0: map<string, nat>, order0: seq<string>,
                    ghost seen: seq<string>)
    returns (counts: map<string, nat>, order: seq<string>)
    requires Tallied(seen, counts0, order0)
    ensures Tallied(seen + result, counts, order)
  {
    counts, order := counts0, order0;
    ghost var acc := seen;
    for j := 0 to |result|
      invariant acc == seen + result[..j]
      invariant Tallied(acc, counts, order)
    {
      var word := result[j];
      ghost var counts1, order1 := counts, order;
      if word !in counts {
        counts := counts[word := 0];
        order := order + [word];
      }
      ghost var mid := counts;
      counts := counts[word := counts[word] + 1];
      EnterThenIncrement(counts1, word, mid, counts);
      TallyStep(acc, counts1, order1, word, counts, order);
      assert seen + result[..j + 1] == acc + [word];
      acc := acc + [word];
    }
    assert result[..|result|] == result;
  }

  /** The `strip_map` loop: every word emitted by the search of every frequent character is
      counted; `order` is the counter's key order. */
  method CountEmissions(chars: seq<char>, index: map<char, CharEntry>)
    returns (counts: map<string, nat>, order: seq<string>)
    requires forall c :: c in chars ==> c in index
    ensures forall w :: w in counts <==> w in Emitted(chars, index)
    ensures forall w :: w in counts ==> counts[w] == multiset(Emitted(chars, index))[w]
    ensures order == Dedup(Emitted(chars, index))
    ensures forall w :: w in counts <==> w in order
  {
    counts, order := map[], [];
    for k := 0 to |chars|
      invariant Tallied(Emitted(chars[..k], index), counts, order)
    {
      ghost var done := chars[..k + 1];
      assert done[..|done| - 1] == chars[..k] && done[|done| - 1] == chars[k];
      var c := chars[k];
      var result := IterateSearch(index[c].scopes, [c]);
      counts, order := TallyWords(result, counts, order, Emitted(chars[..k], index));
    }
    assert chars[..|chars|] == chars;
    forall w | w in counts ensures w in Emitted(chars, index) {
      assert w in Dedup(Emitted(chars, index));
    }
  }

  /** The candidates: the counted words, in key order, except those counted only once. */
  function Recurring(order: seq<string>, counts: map<string, nat>): (r: seq<Candidate>)
    requires forall w :: w in order ==> w in counts
    ensures forall x :: x in r <==> x.word in order && x.freq == counts[x.word] && x.freq != 1
    ensures |r| <= |order|
  {
    if order == [] then []
    else
      var w := order[|order| - 1];
      assert order == order[..|order| - 1] + [w];
      Recurring(order[..|order| - 1], counts)
        + (if counts[w] == 1 then [] else [Candidate(w, counts[w])])
  }

  /** Distinct keys give candidates with distinct words. */
  lemma {:induction false} RecurringDistinct(order: seq<string>, counts: map<string, nat>)
    requires forall w :: w in order ==> w in counts
    requires Distinct(order)
    ensures DistinctWords(Recurring(order, counts))
  {
    if order != [] {
      var init := order[..|order| - 1];
      var w := order[|order| - 1];
      DistinctPrefix(order);
      RecurringDistinct(init, counts);
      var r0 := Recurring(init, counts);
      assert w !in init by {
        assert order == init + [w];
      }
      if counts[w] != 1 {
        DistinctWordsSnoc(r0, Candidate(w, counts[w]));
      }
    }
  }

  /** The loop building `word_list` from the counter. */
  method Candidates(order: seq<string>, counts: map<string, nat>) returns (list: seq<Candidate>)
    requires forall w :: w in order ==> w in counts
    ensures list == Recurring(order, counts)
    ensures forall x :: x in list <==> x.word in order && x.freq == counts[x.word] && x.freq != 1
  {
    list := [];
    for k := 0 to |order|
      invariant list == Recurring(order[..k], counts)
    {
      assert order[..k + 1][..k] == order[..k];
      var word := order[k];
      var num := counts[word];
      if num != 1 {
        list := list + [Candidate(word, num)];
      }
    }
    assert order[..|order|] == order;
  }
}
