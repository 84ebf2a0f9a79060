/** Stage 4 of the miner: redundancy stripping. A candidate is redundant when a word kept
    before it ends with it; since the candidates are sorted so that, among words with the
    same two last characters, the more frequent and then the longer come first, a suffix
    survives only when it is strictly more frequent than every kept word that ends with it. */
module Redundancy {
  import opened Text
  import opened Seqs

  /** An entry of the working list: the redundancy tag, the word and its frequency. */
  datatype Tagged = Tagged(tag: string, word: string, freq: nat)

  function TagOf(c: Candidate): Tagged {
    Tagged(Tag(c.word), c.word, c.freq)
  }

  function Untag(t: Tagged): Candidate {
    Candidate(t.word, t.freq)
  }

  /** The first loop: every candidate paired with its tag, in order. */
  function Tagging(data: seq<Candidate>): (r: seq<Tagged>)
    ensures |r| == |data|
    ensures forall i :: 0 <= i < |r| ==> r[i] == TagOf(data[i])
  {
    if data == [] then [] else Tagging(data[..|data| - 1]) + [TagOf(data[|data| - 1])]
  }

  /** `reverse_rank_sort(a, b) < 0`: tags ascending, then frequency descending, then length
      descending. */
  predicate Precedes(a: Tagged, b: Tagged) {
    if a.tag != b.tag then LexLess(a.tag, b.tag)
    else if a.freq != b.freq then a.freq > b.freq
    else |a.word| > |b.word|
  }

  /** The order the sort establishes between neighbours: `b` does not precede `a`. */
  predicate Before(a: Tagged, b: Tagged) {
    !Precedes(b, a)
  }

  lemma BeforeTotal(a: Tagged, b: Tagged)
    ensures Before(a, b) || Before(b, a)
  {
    LexLessStrictTotalOrder(a.tag, b.tag, a.tag);
  }

  lemma BeforeTransitive(a: Tagged, b: Tagged, c: Tagged)
    requires Before(a, b) && Before(b, c)
    ensures Before(a, c)
  {
    LexLessStrictTotalOrder(a.tag, b.tag, c.tag);
    LexLessStrictTotalOrder(c.tag, a.tag, b.tag);
    LexLessStrictTotalOrder(b.tag, c.tag, a.tag);
    LexLessStrictTotalOrder(a.tag, c.tag, b.tag);
    LexLessStrictTotalOrder(c.tag, b.tag, a.tag);
    LexLessStrictTotalOrder(b.tag, a.tag, c.tag);
  }

  /** The sort's comparator is a total preorder, so the sort is well defined up to ties. */
  lemma BeforeIsOrder()
    ensures Total(Before) && Transitive(Before)
  {
    forall a, b ensures Before(a, b) || Before(b, a) {
      BeforeTotal(a, b);
    }
    forall a, b, c | Before(a, b) && Before(b, c) ensures Before(a, c) {
      BeforeTransitive(a, b, c);
    }
  }

  /** Along a sorted list the tags never decrease. */
  lemma BeforeTag(a: Tagged, b: Tagged)
    requires Before(a, b)
    ensures a.tag == b.tag || LexLess(a.tag, b.tag)
  {
    LexLessStrictTotalOrder(a.tag, b.tag, a.tag);
  }

  /** Equal tags form contiguous runs. */
  ghost predicate Grouped(sorted: seq<Tagged>) {
    forall i, j, k :: 0 <= i <= j <= k < |sorted| && sorted[i].tag == sorted[k].tag
      ==> sorted[j].tag == sorted[i].tag
  }

  /** Within a sorted list, equal tags form one contiguous run. */
  lemma SortedGrouped(sorted: seq<Tagged>)
    requires SortedPairs(sorted, Before)
    ensures Grouped(sorted)
  {
    forall i, j, k | 0 <= i <= j <= k < |sorted| && sorted[i].tag == sorted[k].tag
      ensures sorted[j].tag == sorted[i].tag
    {
      if i < j < k {
        BeforeTag(sorted[i], sorted[j]);
        BeforeTag(sorted[j], sorted[k]);
        LexLessStrictTotalOrder(sorted[i].tag, sorted[j].tag, sorted[i].tag);
      }
    }
  }

  /** The state of the walk: the kept words (most recent first), the tag of the current run
      and the number of entries seen in that run. */
  datatype WalkState = WalkState(result: seq<Candidate>, keytag: Option<string>, depth: nat)

  /** One of the first `window` kept words ends with `word`. */
  predicate Covered(result: seq<Candidate>, word: string, window: nat)
    requires window <= |result|
  {
    exists r :: 0 <= r < window && EndsWith(result[r].word, word)
  }

  /** The run length after entry `t`: reset when its tag differs from the current one. */
  function NextDepth(st: WalkState, t: Tagged): nat {
    (if st.keytag == Some(t.tag) then st.depth else 0) + 1
  }

  /** How many of the kept words are compared with `t`. */
  function Window(st: WalkState, t: Tagged): (w: nat)
    ensures w <= |st.result|
  {
    var depth := NextDepth(st, t);
    if depth < |st.result| then depth else |st.result|
  }

  /** One iteration of the walk over the sorted list. */
  function Step(st: WalkState, t: Tagged): WalkState {
    if Covered(st.result, t.word, Window(st, t)) then WalkState(st.result, Some(t.tag), NextDepth(st, t))
    else WalkState([Untag(t)] + st.result, Some(t.tag), NextDepth(st, t))
  }

  /** The walk after the first `n` sorted entries. */
  function Walk(sorted: seq<Tagged>, n: nat): WalkState
    requires n <= |sorted|
  {
    if n == 0 then WalkState([], None, 0) else Step(Walk(sorted, n - 1), sorted[n - 1])
  }

  /** The working list after `temp_list.sort(...)`. */
  function SortedTags(data: seq<Candidate>): (r: seq<Tagged>)
    ensures multiset(r) == multiset(Tagging(data)) && |r| == |data|
    ensures Sorted(r, Before)
  {
    BeforeIsOrder();
    SortBy(Tagging(data), Before)
  }

  /** What `strip_redundants` returns: the walk over the candidates sorted by tag. */
  function Strip(data: seq<Candidate>): seq<Candidate> {
    var sorted := SortedTags(data);
    Walk(sorted, |sorted|).result
  }

  /** Every entry carries its own tag, and every word has at least two characters. */
  ghost predicate WellTagged(sorted: seq<Tagged>) {
    forall i :: 0 <= i < |sorted| ==> sorted[i].tag == Tag(sorted[i].word) && |sorted[i].word| >= 2
  }

  ghost predicate DistinctEntries(sorted: seq<Tagged>) {
    forall i, j :: 0 <= i < j < |sorted| ==> sorted[i].word != sorted[j].word
  }

  /** Within a run of equal tags, the frequency never rises, and at equal frequency the
      length never rises. */
  ghost predicate RunOrdered(sorted: seq<Tagged>) {
    forall i, j :: 0 <= i < j < |sorted| && sorted[i].tag == sorted[j].tag ==>
      sorted[i].freq > sorted[j].freq
      || (sorted[i].freq == sorted[j].freq && |sorted[i].word| >= |sorted[j].word|)
  }

  lemma SortedRunOrdered(sorted: seq<Tagged>)
    requires SortedPairs(sorted, Before)
    ensures RunOrdered(sorted)
  {
    forall i, j | 0 <= i < j < |sorted| && sorted[i].tag == sorted[j].tag
      ensures sorted[i].freq > sorted[j].freq
        || (sorted[i].freq == sorted[j].freq && |sorted[i].word| >= |sorted[j].word|)
    {
      assert Before(sorted[i], sorted[j]);
    }
  }

  /** What the sorted list is known to satisfy before the walk. */
  ghost predicate Prepared(sorted: seq<Tagged>) {
    Grouped(sorted) && RunOrdered(sorted) && WellTagged(sorted) && DistinctEntries(sorted)
  }

  /** `y` is a different kept word that ends with `x.word` and is at least as frequent. */
  ghost predicate Dominates(y: Candidate, x: Candidate) {
    y.word != x.word && EndsWith(y.word, x.word) && y.freq >= x.freq
  }

  /** Every kept word is one of the first `n` sorted entries. */
  ghost predicate FromInput(sorted: seq<Tagged>, n: nat, result: seq<Candidate>)
    requires n <= |sorted|
  {
    forall r :: 0 <= r < |result| ==> exists i :: 0 <= i < n && result[r] == Untag(sorted[i])
  }

  /** Entry `t` is kept, or dominated by a kept word. */
  ghost predicate Settled(t: Tagged, result: seq<Candidate>) {
    Untag(t) in result || exists y :: y in result && Dominates(y, Untag(t))
  }

  /** Every one of the first `n` entries is settled. */
  ghost predicate Accounted(sorted: seq<Tagged>, n: nat, result: seq<Candidate>)
    requires n <= |sorted|
  {
    forall i {:trigger Settled(sorted[i], result)} :: 0 <= i < n ==> Settled(sorted[i], result)
  }

  /** Of two kept words one of which ends with the other, the shorter is the more frequent. */
  ghost predicate NoRedundantPair(result: seq<Candidate>) {
    forall x, y :: x in result && y in result && y.word != x.word && EndsWith(y.word, x.word)
      ==> x.freq > y.freq
  }

  /** The run bookkeeping: `keytag` is the tag of the last entry, and the kept words of the
      current run sit at the front of `result`, within the first `depth` places. */
  ghost predicate RunAtFront(sorted: seq<Tagged>, n: nat, st: WalkState)
    requires n <= |sorted|
  {
    && (n == 0 ==> st.result == [] && st.keytag == None)
    && (n > 0 ==>
          && st.keytag == Some(sorted[n - 1].tag) && st.depth >= 1
          && forall r :: 0 <= r < |st.result| && Tag(st.result[r].word) == sorted[n - 1].tag
               ==> r < st.depth)
  }

  /** The walk's invariant after `n` entries. */
  ghost predicate WalkInv(sorted: seq<Tagged>, n: nat, st: WalkState)
    requires n <= |sorted|
  {
    && |st.result| <= n
    && FromInput(sorted, n, st.result)
    && Accounted(sorted, n, st.result)
    && NoRedundantPair(st.result)
    && DistinctWords(st.result)
    && RunAtFront(sorted, n, st)
  }

  /** A kept word with the tag of entry `n` belongs to the current run, which is at the
      front of the kept words. */
  lemma RunMember(sorted: seq<Tagged>, n: nat, st: WalkState, r: nat)
    requires Grouped(sorted) && WellTagged(sorted) && n < |sorted|
    requires FromInput(sorted, n, st.result) && RunAtFront(sorted, n, st)
    requires r < |st.result| && Tag(st.result[r].word) == sorted[n].tag
    ensures st.keytag == Some(sorted[n].tag)
    ensures r < st.depth
  {
    var i :| 0 <= i < n && st.result[r] == Untag(sorted[i]);
    assert sorted[i].tag == Tag(sorted[i].word);
    assert sorted[n - 1].tag == sorted[n].tag;
  }

  /** Whether the window holds a word ending with entry `n` decides whether any kept word
      does: the window always reaches every kept word of the current run. */
  lemma WindowCovers(sorted: seq<Tagged>, n: nat, st: WalkState)
    requires Grouped(sorted) && WellTagged(sorted) && n < |sorted|
    requires FromInput(sorted, n, st.result) && RunAtFront(sorted, n, st)
    ensures Covered(st.result, sorted[n].word, Window(st, sorted[n]))
      <==> exists r :: 0 <= r < |st.result| && EndsWith(st.result[r].word, sorted[n].word)
  {
    var t := sorted[n];
    forall r | 0 <= r < |st.result| && EndsWith(st.result[r].word, t.word)
      ensures r < Window(st, t)
    {
      assert |t.word| >= 2 && t.tag == Tag(t.word);
      EndsWithSameTag(st.result[r].word, t.word);
      RunMember(sorted, n, st, r);
    }
  }

  /** The kept word found by the window came earlier in the sorted list, so it is at least as
      frequent as the entry it ends with. */
  lemma EarlierDominates(sorted: seq<Tagged>, n: nat, st: WalkState, r: nat)
    requires RunOrdered(sorted) && WellTagged(sorted) && DistinctEntries(sorted)
    requires n < |sorted| && FromInput(sorted, n, st.result)
    requires r < |st.result| && EndsWith(st.result[r].word, sorted[n].word)
    ensures Dominates(st.result[r], Untag(sorted[n]))
  {
    var t := sorted[n];
    var i :| 0 <= i < n && st.result[r] == Untag(sorted[i]);
    assert |t.word| >= 2 && t.tag == Tag(t.word) && sorted[i].tag == Tag(sorted[i].word);
    EndsWithSameTag(sorted[i].word, t.word);
    assert sorted[i].word != t.word;
  }

  /** A new entry that ends with an earlier one is less frequent than it. */
  lemma LaterLessFrequent(sorted: seq<Tagged>, n: nat, st: WalkState, u: Candidate)
    requires RunOrdered(sorted) && WellTagged(sorted) && n < |sorted|
    requires FromInput(sorted, n, st.result)
    requires u in st.result && u.word != sorted[n].word && EndsWith(sorted[n].word, u.word)
    ensures u.freq > sorted[n].freq
  {
    var t := sorted[n];
    var r :| 0 <= r < |st.result| && st.result[r] == u;
    var i :| 0 <= i < n && st.result[r] == Untag(sorted[i]);
    EndsWithSameTag(t.word, u.word);
  }

  /** The kept words stay among the entries seen. */
  lemma FromInputGrows(sorted: seq<Tagged>, n: nat, result: seq<Candidate>)
    requires n < |sorted| && FromInput(sorted, n, result)
    ensures FromInput(sorted, n + 1, result)
    ensures FromInput(sorted, n + 1, [Untag(sorted[n])] + result)
  {
    var R' := [Untag(sorted[n])] + result;
    forall q | 0 <= q < |R'| ensures exists i :: 0 <= i < n + 1 && R'[q] == Untag(sorted[i]) {
      if q > 0 {
        assert R'[q] == result[q - 1];
        var i :| 0 <= i < n && result[q - 1] == Untag(sorted[i]);
      } else {
        assert R'[q] == Untag(sorted[n]);
      }
    }
  }

  /** A settled entry stays settled when a word is added to the kept ones. */
  lemma SettledGrows(t: Tagged, result: seq<Candidate>, x: Candidate)
    requires Settled(t, result)
    ensures Settled(t, [x] + result)
  {
    if Untag(t) !in result {
      var y :| y in result && Dominates(y, Untag(t));
      assert y in [x] + result;
    }
  }

  /** The drop case: the entry is dominated by the word the window found. */
  lemma DropSettled(sorted: seq<Tagged>, n: nat, st: WalkState)
    requires RunOrdered(sorted) && WellTagged(sorted) && DistinctEntries(sorted) && n < |sorted|
    requires FromInput(sorted, n, st.result)
    requires Covered(st.result, sorted[n].word, Window(st, sorted[n]))
    ensures Settled(sorted[n], st.result)
  {
    var R := st.result;
    var r :| 0 <= r < Window(st, sorted[n]) && EndsWith(R[r].word, sorted[n].word);
    EarlierDominates(sorted, n, st, r);
    assert R[r] in R;
  }

  lemma AccountedGrows(sorted: seq<Tagged>, n: nat, result: seq<Candidate>)
    requires n < |sorted| && Accounted(sorted, n, result) && Settled(sorted[n], result)
    ensures Accounted(sorted, n + 1, result)
  {
    forall i | 0 <= i < n + 1 ensures Settled(sorted[i], result) {
      if i < n {
        assert Settled(sorted[i], result);
      }
    }
  }

  /** The keep case for the settled entries: the new entry is kept. */
  lemma KeepAccounted(sorted: seq<Tagged>, n: nat, result: seq<Candidate>)
    requires n < |sorted| && Accounted(sorted, n, result)
    ensures Accounted(sorted, n + 1, [Untag(sorted[n])] + result)
  {
    var R' := [Untag(sorted[n])] + result;
    forall i | 0 <= i < n + 1 ensures Settled(sorted[i], R') {
      if i < n {
        assert Settled(sorted[i], result);
        SettledGrows(sorted[i], result, Untag(sorted[n]));
      } else {
        assert R'[0] == Untag(sorted[n]);
      }
    }
  }

  /** The run bookkeeping after either outcome of a step. */
  lemma StepRun(sorted: seq<Tagged>, n: nat, st: WalkState)
    requires Grouped(sorted) && WellTagged(sorted) && n < |sorted|
    requires FromInput(sorted, n, st.result) && RunAtFront(sorted, n, st)
    ensures RunAtFront(sorted, n + 1, Step(st, sorted[n]))
  {
    var t := sorted[n];
    var st' := Step(st, t);
    var R := st.result;
    assert st'.keytag == Some(t.tag) && st'.depth == NextDepth(st, t);
    if Covered(R, t.word, Window(st, t)) {
      assert st'.result == R;
      forall q | 0 <= q < |R| && Tag(R[q].word) == t.tag ensures q < st'.depth {
        RunMember(sorted, n, st, q);
      }
    } else {
      var R' := [Untag(t)] + R;
      assert st'.result == R';
      forall q | 0 <= q < |R'| && Tag(R'[q].word) == t.tag ensures q < st'.depth {
        if q > 0 {
          assert R'[q] == R[q - 1];
          RunMember(sorted, n, st, q - 1);
        }
      }
    }
  }

  /** A word kept by a step ends no word kept before it. */
  lemma KeepNotSuffix(sorted: seq<Tagged>, n: nat, st: WalkState, b: Candidate)
    requires Grouped(sorted) && WellTagged(sorted) && n < |sorted|
    requires FromInput(sorted, n, st.result) && RunAtFront(sorted, n, st)
    requires !Covered(st.result, sorted[n].word, Window(st, sorted[n]))
    requires b in st.result
    ensures !EndsWith(b.word, sorted[n].word)
  {
    var q :| 0 <= q < |st.result| && st.result[q] == b;
    WindowCovers(sorted, n, st);
  }

  /** The keep case for pairs of kept words: the new word ends no kept word (otherwise the
      window would have found it), and a kept word it ends with is more frequent. */
  lemma KeepNoRedundantPair(sorted: seq<Tagged>, n: nat, st: WalkState)
    requires Grouped(sorted) && RunOrdered(sorted) && WellTagged(sorted) && n < |sorted|
    requires FromInput(sorted, n, st.result) && RunAtFront(sorted, n, st)
    requires NoRedundantPair(st.result)
    requires !Covered(st.result, sorted[n].word, Window(st, sorted[n]))
    ensures NoRedundantPair([Untag(sorted[n])] + st.result)
  {
    var x := Untag(sorted[n]);
    var R := st.result;
    var R' := [x] + R;
    forall a, b | a in R' && b in R' && b.word != a.word && EndsWith(b.word, a.word)
      ensures a.freq > b.freq
    {
      if a == x {
        KeepNotSuffix(sorted, n, st, b);
      } else if b == x {
        LaterLessFrequent(sorted, n, st, a);
      }
    }
  }

  /** The keep case for distinctness: the new word was not seen before. */
  lemma KeepDistinct(sorted: seq<Tagged>, n: nat, result: seq<Candidate>)
    requires DistinctEntries(sorted) && n < |sorted|
    requires FromInput(sorted, n, result) && DistinctWords(result)
    ensures DistinctWords([Untag(sorted[n])] + result)
  {
    var R' := [Untag(sorted[n])] + result;
    forall p, q | 0 <= p < q < |R'| ensures R'[p].word != R'[q].word {
      assert R'[q] == result[q - 1];
      var i :| 0 <= i < n && result[q - 1] == Untag(sorted[i]);
      if p > 0 {
        assert R'[p] == result[p - 1];
      }
    }
  }

  /** One step keeps the invariant. */
  lemma StepInv(sorted: seq<Tagged>, n: nat, st: WalkState)
    requires Prepared(sorted) && n < |sorted| && WalkInv(sorted, n, st)
    ensures WalkInv(sorted, n + 1, Step(st, sorted[n]))
  {
    var t := sorted[n];
    FromInputGrows(sorted, n, st.result);
    StepRun(sorted, n, st);
    if Covered(st.result, t.word, Window(st, t)) {
      DropSettled(sorted, n, st);
      AccountedGrows(sorted, n, st.result);
    } else {
      KeepAccounted(sorted, n, st.result);
      KeepNoRedundantPair(sorted, n, st);
      KeepDistinct(sorted, n, st.result);
    }
  }

  /** The invariant holds all along the walk over a prepared list. */
  lemma {:induction false} WalkInvariant(sorted: seq<Tagged>, n: nat)
    requires Prepared(sorted) && n <= |sorted|
    ensures WalkInv(sorted, n, Walk(sorted, n))
  {
    if n > 0 {
      var m := n - 1;
      WalkInvariant(sorted, m);
      StepInv(sorted, m, Walk(sorted, m));
      assert m + 1 == n;
    }
  }

  /** Every entry of a rearrangement of the tagged candidates is the tagged form of a
      candidate. */
  lemma SortedFromData(data: seq<Candidate>, sorted: seq<Tagged>)
    requires multiset(sorted) == multiset(Tagging(data))
    ensures forall i :: 0 <= i < |sorted| ==>
      exists k :: 0 <= k < |data| && sorted[i] == TagOf(data[k])
  {
    var tagged := Tagging(data);
    forall i | 0 <= i < |sorted| ensures exists k :: 0 <= k < |data| && sorted[i] == TagOf(data[k]) {
      assert sorted[i] in multiset(tagged);
      var k :| 0 <= k < |tagged| && tagged[k] == sorted[i];
    }
  }

  /** Distinct candidate words stay distinct in any rearrangement of the tagged list. */
  lemma SortedDistinct(data: seq<Candidate>, sorted: seq<Tagged>)
    requires DistinctWords(data)
    requires multiset(sorted) == multiset(Tagging(data))
    ensures DistinctEntries(sorted)
  {
    var tagged := Tagging(data);
    SortedFromData(data, sorted);
    assert Distinct(tagged) by {
      forall i, j | 0 <= i < j < |tagged| ensures tagged[i] != tagged[j] {
        assert tagged[i].word == data[i].word && tagged[j].word == data[j].word;
      }
    }
    DistinctPermutation(tagged, sorted);
    forall i, j | 0 <= i < j < |sorted| ensures sorted[i].word != sorted[j].word {
      var ki :| 0 <= ki < |data| && sorted[i] == TagOf(data[ki]);
      var kj :| 0 <= kj < |data| && sorted[j] == TagOf(data[kj]);
      assert ki != kj;
    }
  }

  /** Any sorted arrangement of the tagged candidates is a prepared list when the words are
      distinct and at least two characters long. */
  lemma SortedPrepared(data: seq<Candidate>, sorted: seq<Tagged>)
    requires DistinctWords(data)
    requires forall c :: c in data ==> |c.word| >= 2
    requires multiset(sorted) == multiset(Tagging(data)) && Sorted(sorted, Before)
    ensures Prepared(sorted)
  {
    BeforeIsOrder();
    SortedAllPairs(sorted, Before);
    SortedGrouped(sorted);
    SortedRunOrdered(sorted);
    SortedFromData(data, sorted);
    forall i | 0 <= i < |sorted|
      ensures sorted[i].tag == Tag(sorted[i].word) && |sorted[i].word| >= 2
    {
      var k :| 0 <= k < |data| && sorted[i] == TagOf(data[k]);
      assert data[k] in data;
    }
    SortedDistinct(data, sorted);
  }

  /** The kept words come from the candidates. */
  lemma KeptFromData(data: seq<Candidate>, sorted: seq<Tagged>, R: seq<Candidate>)
    requires multiset(sorted) == multiset(Tagging(data))
    requires FromInput(sorted, |sorted|, R)
    ensures forall c :: c in R ==> c in data
  {
    forall c | c in R ensures c in data {
      var q :| 0 <= q < |R| && R[q] == c;
      var i :| 0 <= i < |sorted| && R[q] == Untag(sorted[i]);
      assert sorted[i] in multiset(Tagging(data));
      var k :| 0 <= k < |data| && Tagging(data)[k] == sorted[i];
    }
  }

  /** Every candidate is settled by the kept words. */
  lemma DataSettled(data: seq<Candidate>, sorted: seq<Tagged>, R: seq<Candidate>)
    requires multiset(sorted) == multiset(Tagging(data))
    requires Accounted(sorted, |sorted|, R)
    ensures forall c :: c in data ==> c in R || exists y :: y in R && Dominates(y, c)
  {
    forall c | c in data ensures c in R || exists y :: y in R && Dominates(y, c) {
      var k :| 0 <= k < |data| && data[k] == c;
      assert Tagging(data)[k] in multiset(sorted);
      var i :| 0 <= i < |sorted| && sorted[i] == Tagging(data)[k];
      assert Settled(sorted[i], R);
    }
  }

  /** The walk over any sorted arrangement of the tagged candidates, whatever the order of
      its ties (the stable `list.sort` gives one of them): it keeps a subset of the
      candidates without repeating a word, every candidate is kept or dominated by a kept
      word, no kept pair is redundant, and a candidate is kept exactly when no kept word
      dominates it. */
  lemma SortedWalkSound(data: seq<Candidate>, sorted: seq<Tagged>)
    requires DistinctWords(data)
    requires forall c :: c in data ==> |c.word| >= 2
    requires multiset(sorted) == multiset(Tagging(data)) && Sorted(sorted, Before)
    ensures var kept := Walk(sorted, |sorted|).result;
      && |kept| <= |data|
      && (forall c :: c in kept ==> c in data)
      && DistinctWords(kept)
      && (forall c :: c in data ==> c in kept || exists y :: y in kept && Dominates(y, c))
      && NoRedundantPair(kept)
      && forall c :: c in kept <==> c in data && !exists y :: y in kept && Dominates(y, c)
  {
    assert |sorted| == |data| by {
      assert |multiset(sorted)| == |multiset(Tagging(data))|;
    }
    SortedPrepared(data, sorted);
    WalkInvariant(sorted, |sorted|);
    var kept := Walk(sorted, |sorted|).result;
    KeptFromData(data, sorted, kept);
    DataSettled(data, sorted, kept);
  }

  /** What `strip_redundants` guarantees for distinct candidates of two characters or more:
      it keeps a subset of its input without repeating a word, drops only candidates that a
      kept, different and at least as frequent word ends with, and never keeps a word
      together with a suffix of it that is not strictly more frequent. */
  lemma StripSound(data: seq<Candidate>)
    requires DistinctWords(data)
    requires forall c :: c in data ==> |c.word| >= 2
    ensures |Strip(data)| <= |data|
    ensures forall c :: c in Strip(data) ==> c in data
    ensures DistinctWords(Strip(data))
    ensures forall c :: c in data ==> c in Strip(data) || exists y :: y in Strip(data) && Dominates(y, c)
    ensures NoRedundantPair(Strip(data))
  {
    SortedWalkSound(data, SortedTags(data));
  }

  /** The kept words are exactly the candidates that no kept word dominates. */
  lemma StripFixpoint(data: seq<Candidate>)
    requires DistinctWords(data)
    requires forall c :: c in data ==> |c.word| >= 2
    ensures forall c :: c in Strip(data) <==> c in data && !exists y :: y in Strip(data) && Dominates(y, c)
  {
    StripSound(data);
  }

  /** The first sorted entry is kept by the first step, whose window is empty, and stays
      kept because later steps only add words at the front. */
  lemma {:induction false} WalkKeepsFirst(sorted: seq<Tagged>, n: nat)
    requires 1 <= n <= |sorted|
    ensures Untag(sorted[0]) in Walk(sorted, n).result
  {
    if n == 1 {
      var st := Walk(sorted, 0);
      assert Window(st, sorted[0]) == 0;
      assert !Covered(st.result, sorted[0].word, 0);
    } else {
      WalkKeepsFirst(sorted, n - 1);
      var st := Walk(sorted, n - 1);
      assert Walk(sorted, n) == Step(st, sorted[n - 1]);
    }
  }

  /** The first candidate of the sorted working list (the smallest tag, most frequent, then
      longest) is never stripped. */
  lemma StripKeepsFirst(data: seq<Candidate>)
    requires data != []
    ensures Untag(SortedTags(data)[0]) in Strip(data)
  {
    WalkKeepsFirst(SortedTags(data), |data|);
  }

  /** A dominating word is strictly longer than the word it dominates. */
  lemma DominatesLonger(y: Candidate, x: Candidate)
    requires Dominates(y, x)
    ensures |y.word| > |x.word|
  {
  }

  /** A list of kept words in the sense of StripFixpoint: a candidate is kept exactly when
      no kept word dominates it. */
  ghost predicate FixpointOf(data: set<Candidate>, kept: seq<Candidate>) {
    forall c :: c in kept <==> c in data && !exists y :: y in kept && Dominates(y, c)
  }

  /** The kept words are determined by the candidates alone: two lists that both satisfy the
      fixpoint over the same candidates hold the same entries. Domination always points to a
      longer word, so the membership of `x` is settled by that of longer words. */
  lemma {:induction false} FixpointUnique(data: set<Candidate>, kept1: seq<Candidate>,
                                          kept2: seq<Candidate>, bound: nat, x: Candidate)
    requires FixpointOf(data, kept1) && FixpointOf(data, kept2)
    requires forall c :: c in data ==> |c.word| <= bound
    ensures x in kept1 <==> x in kept2
    decreases bound - |x.word|
  {
    if x in data {
      forall y | y in kept1 && Dominates(y, x) ensures y in kept2 {
        DominatesLonger(y, x);
        FixpointUnique(data, kept1, kept2, bound, y);
      }
      forall y | y in kept2 && Dominates(y, x) ensures y in kept1 {
        DominatesLonger(y, x);
        FixpointUnique(data, kept1, kept2, bound, y);
      }
    }
  }

  /** The inner loop of the walk: whether one of the first `window` kept words ends with
      `word`, stopping at the first that does. */
  method ScanWindow(result: seq<Candidate>, word: string, window: nat) returns (redundant: bool)
    requires window <= |result|
    ensures redundant == Covered(result, word, window)
  {
    redundant := false;
    for r := 0 to window
      invariant !redundant
      invariant forall q :: 0 <= q < r ==> !EndsWith(result[q].word, word)
    {
      if EndsWith(result[r].word, word) {
        redundant := true;
        break;
      }
    }
  }

  /** The first loop of `strip_redundants`: pairs every candidate with its tag. */
  method TagAll(data: seq<Candidate>) returns (temp: seq<Tagged>)
    ensures temp == Tagging(data)
  {
    temp := [];
    for k := 0 to |data|
      invariant temp == Tagging(data[..k])
    {
      assert data[..k + 1][..k] == data[..k];
      var item := data[k];
      temp := temp + [Tagged(Tag(item.word), item.word, item.freq)];
    }
    assert data[..|data|] == data;
  }

  /** `strip_redundants`: tags every candidate, sorts by tag, then walks the sorted list,
      comparing each word with the first `min(depth, len(result))` kept words and inserting
      it at the front when none of them ends with it. */
  method StripRedundants(data: seq<Candidate>) returns (result: seq<Candidate>)
    ensures result == Strip(data)
  {
    var temp := TagAll(data);
    BeforeIsOrder();
    temp := SortBy(temp, Before);
    assert temp == SortedTags(data);
    var keytag: Option<string> := None;
    var depth: nat := 0;
    result := [];
    for n := 0 to |temp|
      invariant WalkState(result, keytag, depth) == Walk(temp, n)
    {
      var t := temp[n];
      ghost var st := WalkState(result, keytag, depth);
      if keytag != Some(t.tag) {
        keytag, depth := Some(t.tag), 0;
      }
      depth := depth + 1;
      var window := if depth < |result| then depth else |result|;
      assert depth == NextDepth(st, t) && window == Window(st, t);
      var redundant := ScanWindow(result, t.word, window);
      if !redundant {
        result := [Candidate(t.word, t.freq)] + result;
      }
      assert WalkState(result, keytag, depth) == Step(st, t);
    }
  }
}
