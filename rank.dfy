/** Stage 5 of the miner: the surviving words are ranked ascending by frequency, then length,
    then text, and the last `limit` of them are printed (all of them when `limit` is not
    positive). */
module Rank {
  import opened Text
  import opened Seqs

  /** The ranking comparator: 1 when `a` ranks above `b`, -1 otherwise. Two entries with the
      same frequency, length and text compare -1 both ways. */
  function RankCompare(a: Candidate, b: Candidate): (r: int)
    ensures r == 1 || r == -1
  {
    if a.freq != b.freq then (if a.freq > b.freq then 1 else -1)
    else if |a.word| != |b.word| then (if |a.word| > |b.word| then 1 else -1)
    else if LexLess(b.word, a.word) then 1
    else -1
  }

  /** The ranking as an order: ascending by (frequency, length, text). */
  predicate RankLe(a: Candidate, b: Candidate) {
    if a.freq != b.freq then a.freq < b.freq
    else if |a.word| != |b.word| then |a.word| < |b.word|
    else a.word == b.word || LexLess(a.word, b.word)
  }

  /** On entries with different words the comparator is antisymmetric, and `a` may precede
      `b` exactly when the comparator ranks `a` below `b`. */
  lemma RankLeMatchesCompare(a: Candidate, b: Candidate)
    requires a.word != b.word
    ensures RankCompare(a, b) == -RankCompare(b, a)
    ensures RankLe(a, b) <==> RankCompare(a, b) == -1
  {
    LexLessStrictTotalOrder(a.word, b.word, a.word);
  }

  lemma RankLeTransitive(a: Candidate, b: Candidate, c: Candidate)
    requires RankLe(a, b) && RankLe(b, c)
    ensures RankLe(a, c)
  {
    if a.freq == b.freq == c.freq && |a.word| == |b.word| == |c.word| {
      LexLessStrictTotalOrder(a.word, b.word, c.word);
    }
  }

  lemma RankLeIsOrder()
    ensures Total(RankLe) && Transitive(RankLe)
  {
    forall a: Candidate, b: Candidate ensures RankLe(a, b) || RankLe(b, a) {
      LexLessTotal(a.word, b.word);
    }
    forall a: Candidate, b: Candidate, c: Candidate | RankLe(a, b) && RankLe(b, c)
      ensures RankLe(a, c)
    {
      RankLeTransitive(a, b, c);
    }
  }

  /** Two entries that each may precede the other are the same entry. */
  lemma RankLeAntisymmetric(a: Candidate, b: Candidate)
    requires RankLe(a, b) && RankLe(b, a)
    ensures a == b
  {
    LexLessStrictTotalOrder(a.word, b.word, a.word);
  }

  /** `word_list.sort` with the ranking comparator. */
  function Ranked(list: seq<Candidate>): (r: seq<Candidate>)
    ensures multiset(r) == multiset(list) && |r| == |list|
    ensures Sorted(r, RankLe)
  {
    RankLeIsOrder();
    SortBy(list, RankLe)
  }

  /** In a ranked list every entry may precede every later one. */
  lemma {:induction false} SortedPairLe(s: seq<Candidate>, i: nat, j: nat)
    requires Sorted(s, RankLe) && i <= j < |s|
    ensures RankLe(s[i], s[j])
    decreases j
  {
    if i < j {
      SortedPairLe(s, i, j - 1);
      RankLeTransitive(s[i], s[j - 1], s[j]);
    }
  }

  lemma SortedTail(s: seq<Candidate>)
    requires Sorted(s, RankLe) && s != []
    ensures Sorted(s[1..], RankLe)
  {
    forall i | 0 < i < |s[1..]| ensures RankLe(s[1..][i - 1], s[1..][i]) {
      assert s[1..][i - 1] == s[i] && s[1..][i] == s[i + 1];
    }
  }

  /** Two ranked arrangements of the same entries start with the same entry. */
  lemma SortedHeads(s: seq<Candidate>, t: seq<Candidate>)
    requires Sorted(s, RankLe) && Sorted(t, RankLe) && multiset(s) == multiset(t) && s != []
    ensures t != [] && s[0] == t[0]
  {
    assert s[0] in multiset(t);
    var k :| 0 <= k < |t| && t[k] == s[0];
    assert t[0] in multiset(s);
    var m :| 0 <= m < |s| && s[m] == t[0];
    SortedPairLe(t, 0, k);
    SortedPairLe(s, 0, m);
    RankLeAntisymmetric(s[0], t[0]);
  }

  /** Removing the same first entry from two rearrangements of each other. */
  lemma TailsPermutation<T>(s: seq<T>, t: seq<T>)
    requires multiset(s) == multiset(t) && s != [] && t != [] && s[0] == t[0]
    ensures multiset(s[1..]) == multiset(t[1..])
  {
    assert s == [s[0]] + s[1..] && t == [t[0]] + t[1..];
    assert multiset(s) == multiset{s[0]} + multiset(s[1..]);
    assert multiset(t) == multiset{t[0]} + multiset(t[1..]);
    assert multiset(s[1..]) == multiset(s) - multiset{s[0]};
    assert multiset(t[1..]) == multiset(t) - multiset{t[0]};
  }

  /** The ranking leaves no choice: two sorted arrangements of the same entries are equal, so
      the printed order does not depend on the order the entries arrive in or on the sorting
      algorithm. */
  lemma {:induction false} RankedUnique(s: seq<Candidate>, t: seq<Candidate>)
    requires Sorted(s, RankLe) && Sorted(t, RankLe) && multiset(s) == multiset(t)
    ensures s == t
    decreases |s|
  {
    if s == [] {
      assert |multiset(t)| == 0;
    } else {
      SortedHeads(s, t);
      TailsPermutation(s, t);
      SortedTail(s);
      SortedTail(t);
      RankedUnique(s[1..], t[1..]);
      assert s == [s[0]] + s[1..] && t == [t[0]] + t[1..];
    }
  }

  /** Python's `s[n]`: a negative index counts from the end; anything outside
      `-|s| <= n < |s|` raises IndexError (None). */
  function PyIndex<T>(s: seq<T>, n: int): (r: Option<T>)
    ensures r.Some? <==> -|s| <= n < |s|
    ensures 0 <= n < |s| ==> r == Some(s[n])
    ensures -|s| <= n < 0 ==> r == Some(s[|s| + n])
  {
    if 0 <= n < |s| then Some(s[n])
    else if -|s| <= n < 0 then Some(s[|s| + n])
    else None
  }

  /** What printing `s[lo]`, ..., `s[hi - 1]` one after another produces: the entries, or
      None when one of the indices raises IndexError. */
  function PrintRange(s: seq<Candidate>, lo: int, hi: int): Option<seq<Candidate>>
    decreases hi - lo
  {
    if hi <= lo then Some([])
    else match PrintRange(s, lo, hi - 1)
      case None => None
      case Some(p) =>
        match PyIndex(s, hi - 1)
        case None => None
        case Some(x) => Some(p + [x])
  }

  /** One failing index makes the whole range fail. */
  lemma {:induction false} PrintRangeFails(s: seq<Candidate>, lo: int, n: int, hi: int)
    requires lo <= n < hi && PyIndex(s, n).None?
    ensures PrintRange(s, lo, hi).None?
    decreases hi - lo
  {
    if n < hi - 1 {
      PrintRangeFails(s, lo, n, hi - 1);
    }
  }

  /** Inside `0 <= lo <= hi <= |s|` printing a range gives the slice. */
  lemma {:induction false} PrintRangeSlice(s: seq<Candidate>, lo: int, hi: int)
    requires 0 <= lo <= hi <= |s|
    ensures PrintRange(s, lo, hi) == Some(s[lo..hi])
    decreases hi - lo
  {
    if lo < hi {
      PrintRangeSlice(s, lo, hi - 1);
      assert s[lo..hi] == s[lo..hi - 1] + [s[hi - 1]];
    } else {
      assert s[lo..hi] == [];
    }
  }

  /** Inside `-|s| <= lo <= hi <= 0` the indices count from the end. */
  lemma {:induction false} PrintRangeWrapped(s: seq<Candidate>, lo: int, hi: int)
    requires -|s| <= lo <= hi <= 0
    ensures PrintRange(s, lo, hi) == Some(s[|s| + lo..|s| + hi])
    decreases hi - lo
  {
    if lo < hi {
      var m := hi - 1;
      PrintRangeWrapped(s, lo, m);
      assert PyIndex(s, m) == Some(s[|s| + m]);
      assert s[|s| + lo..|s| + hi] == s[|s| + lo..|s| + m] + [s[|s| + m]];
    } else {
      assert s[|s| + lo..|s| + hi] == [];
    }
  }

  /** A range split in two prints the two parts one after the other. */
  lemma {:induction false} PrintRangeSplit(s: seq<Candidate>, lo: int, mid: int, hi: int,
                                           p: seq<Candidate>, q: seq<Candidate>)
    requires lo <= mid <= hi
    requires PrintRange(s, lo, mid) == Some(p) && PrintRange(s, mid, hi) == Some(q)
    ensures PrintRange(s, lo, hi) == Some(p + q)
    decreases hi - mid
  {
    if mid < hi {
      var m := hi - 1;
      var q' := PrintRange(s, mid, m).value;
      var x := PyIndex(s, m).value;
      assert q == q' + [x];
      PrintRangeSplit(s, lo, mid, m, p, q');
      assert PrintRange(s, lo, hi) == Some((p + q') + [x]);
      assert p + q == (p + q') + [x];
    } else {
      assert p + q == p;
    }
  }

  /** The output loop as the source writes it: the range starts `output_limit` places before
      the end, which is a negative index once the limit exceeds the number of entries. */
  function AsWrittenOutput(ranked: seq<Candidate>, limit: int): Option<seq<Candidate>> {
    var outputLimit := if limit > 0 then limit else |ranked|;
    PrintRange(ranked, |ranked| - outputLimit, |ranked|)
  }

  /** The printing loop as written, including the early `break`. */
  method PrintAsWritten(ranked: seq<Candidate>, limit: int) returns (printed: Option<seq<Candidate>>)
    ensures printed == AsWrittenOutput(ranked, limit)
  {
    var length := |ranked|;
    var outputLimit := if limit > 0 then limit else length;
    var offset := length - outputLimit;
    var out: seq<Candidate> := [];
    var n := offset;
    while n < length
      invariant offset <= n <= length
      invariant PrintRange(ranked, offset, n) == Some(out)
      decreases length - n
    {
      var item := PyIndex(ranked, n);
      if item.None? {
        PrintRangeFails(ranked, offset, n, length);
        return None;
      }
      out := out + [item.value];
      n := n + 1;
      if n - offset >= outputLimit {
        break;
      }
    }
    assert n == length;
    printed := Some(out);
  }

  /** With a limit of at most the number of entries, the source prints the last `limit`
      entries; with a limit that is not positive, all entries. */
  lemma AsWrittenWithinLength(ranked: seq<Candidate>, limit: int)
    requires limit <= |ranked|
    ensures limit <= 0 ==> AsWrittenOutput(ranked, limit) == Some(ranked)
    ensures limit > 0 ==> AsWrittenOutput(ranked, limit) == Some(ranked[|ranked| - limit..])
  {
    var outputLimit := if limit > 0 then limit else |ranked|;
    PrintRangeSlice(ranked, |ranked| - outputLimit, |ranked|);
    assert ranked[0..|ranked|] == ranked;
  }

  /** With a limit above the number of entries and at most twice that number, the range
      starts at a negative index: the source prints the last `limit - |ranked|` entries and
      then every entry again. */
  lemma AsWrittenWraps(ranked: seq<Candidate>, limit: int)
    requires |ranked| < limit <= 2 * |ranked|
    ensures AsWrittenOutput(ranked, limit) == Some(ranked[2 * |ranked| - limit..] + ranked)
  {
    var n := |ranked|;
    PrintRangeWrapped(ranked, n - limit, 0);
    PrintRangeSlice(ranked, 0, n);
    assert ranked[n + 0..n + 0] == [];
    assert ranked[0..n] == ranked;
    PrintRangeSplit(ranked, n - limit, 0, n, ranked[2 * n - limit..], ranked);
  }

  /** With a limit above twice the number of entries (in particular any positive limit on an
      empty list) the first index is out of range and the source raises IndexError. */
  lemma AsWrittenFails(ranked: seq<Candidate>, limit: int)
    requires limit > 2 * |ranked|
    ensures AsWrittenOutput(ranked, limit).None?
  {
    PrintRangeFails(ranked, |ranked| - limit, |ranked| - limit, |ranked|);
  }

  /** Three ranked entries and a limit of five: the source prints five lines, two of the
      words twice. */
  lemma AsWrittenDuplicates()
    ensures var ranked := [Candidate("\U{4E2D}\U{6587}", 2), Candidate("\U{70ED}\U{8BCD}", 3),
                           Candidate("\U{5206}\U{6790}", 4)];
      && AsWrittenOutput(ranked, 5) == Some([ranked[1], ranked[2], ranked[0], ranked[1], ranked[2]])
      && !Distinct(AsWrittenOutput(ranked, 5).value)
  {
    var ranked := [Candidate("\U{4E2D}\U{6587}", 2), Candidate("\U{70ED}\U{8BCD}", 3),
                   Candidate("\U{5206}\U{6790}", 4)];
    AsWrittenWraps(ranked, 5);
    assert ranked[1..] + ranked == [ranked[1], ranked[2], ranked[0], ranked[1], ranked[2]];
    var out := AsWrittenOutput(ranked, 5).value;
    assert out[0] == out[3];
  }

  /** The intended output: the last `min(limit, |ranked|)` entries, or all entries when the
      limit is not positive. */
  function Top(ranked: seq<Candidate>, limit: int): (r: seq<Candidate>)
    ensures |r| == if 0 < limit < |ranked| then limit else |ranked|
    ensures r == ranked[|ranked| - |r|..]
  {
    if 0 < limit < |ranked| then ranked[|ranked| - limit..] else ranked
  }

  /** The printed entries outrank every entry left out, they come in ranking order, and
      none is printed twice. */
  lemma TopOutranksRest(ranked: seq<Candidate>, limit: int)
    requires Sorted(ranked, RankLe)
    ensures var top := Top(ranked, limit);
      && Sorted(top, RankLe)
      && (forall x, y :: x in top && y in ranked[..|ranked| - |top|] ==> RankLe(y, x))
      && (DistinctWords(ranked) ==> DistinctWords(top))
  {
    var top := Top(ranked, limit);
    var k := |ranked| - |top|;
    forall x, y | x in top && y in ranked[..k] ensures RankLe(y, x) {
      var i :| 0 <= i < |top| && top[i] == x;
      var j :| 0 <= j < k && ranked[..k][j] == y;
      assert ranked[j] == y && ranked[k + i] == x;
      SortedPairLe(ranked, j, k + i);
    }
    forall i | 0 < i < |top| ensures RankLe(top[i - 1], top[i]) {
      assert top[i - 1] == ranked[k + i - 1] && top[i] == ranked[k + i];
    }
    if DistinctWords(ranked) {
      forall i, j | 0 <= i < j < |top| ensures top[i].word != top[j].word {
        assert top[i] == ranked[k + i] && top[j] == ranked[k + j];
      }
    }
  }

  /** Where the source's loop is right (a limit of at most the number of entries) it prints
      exactly the intended output. */
  lemma AsWrittenAgreesWithTop(ranked: seq<Candidate>, limit: int)
    requires limit <= |ranked|
    ensures AsWrittenOutput(ranked, limit) == Some(Top(ranked, limit))
  {
    AsWrittenWithinLength(ranked, limit);
    if limit == |ranked| {
      assert ranked[0..] == ranked;
    }
  }

  /** The printing loop with the limit capped at the number of entries. */
  method PrintTop(ranked: seq<Candidate>, limit: int) returns (printed: seq<Candidate>)
    ensures printed == Top(ranked, limit)
  {
    var length := |ranked|;
    var outputLimit := if 0 < limit < length then limit else length;
    var offset := length - outputLimit;
    printed := [];
    for n := offset to length
      invariant printed == ranked[offset..n]
    {
      printed := printed + [ranked[n]];
    }
  }
}
