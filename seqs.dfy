/** Sequence helpers standing in for Python built-ins the miner relies on: insertion-ordered
    dictionary keys (Dedup) and `list.sort` with a comparator (SortBy). */
module Seqs {

  datatype Option<T> = None | Some(value: T)

  ghost predicate Distinct<T>(s: seq<T>) {
    forall i, j :: 0 <= i < j < |s| ==> s[i] != s[j]
  }

  /** `r` is `s` with some elements left out: the last element of `s` either ends `r` or is
      skipped. */
  ghost predicate Subsequence<T>(r: seq<T>, s: seq<T>)
    decreases |s|
  {
    if s == [] then r == []
    else
      || (r != [] && r[|r| - 1] == s[|s| - 1] && Subsequence(r[..|r| - 1], s[..|s| - 1]))
      || Subsequence(r, s[..|s| - 1])
  }

  /** The keys of a dictionary filled from `s` in order: each value once, at its first
      occurrence. */
  function Dedup<T(==,!new)>(s: seq<T>): (r: seq<T>)
    ensures forall x :: x in r <==> x in s
    ensures Distinct(r)
    ensures |r| <= |s|
  {
    if s == [] then []
    else
      var d := Dedup(s[..|s| - 1]);
      assert forall x :: x in s <==> x in s[..|s| - 1] || x == s[|s| - 1] by {
        assert s == s[..|s| - 1] + [s[|s| - 1]];
      }
      if s[|s| - 1] in d then d else d + [s[|s| - 1]]
  }

  /** Appending one more key to a dictionary's insertion order. */
  lemma DedupSnoc<T(!new)>(s: seq<T>, x: T)
    ensures Dedup(s + [x]) == if x in s then Dedup(s) else Dedup(s) + [x]
  {
    assert (s + [x])[..|s + [x]| - 1] == s;
  }

  /** A relation under which any two elements compare. */
  ghost predicate Total<T(!new)>(le: (T, T) -> bool) {
    forall a, b :: le(a, b) || le(b, a)
  }

  ghost predicate Transitive<T(!new)>(le: (T, T) -> bool) {
    forall a, b, c :: le(a, b) && le(b, c) ==> le(a, c)
  }

  /** Neighbours are in order. */
  ghost predicate Sorted<T>(s: seq<T>, le: (T, T) -> bool) {
    forall i :: 0 < i < |s| ==> le(s[i - 1], s[i])
  }

  /** Every earlier element is in order with every later one. */
  ghost predicate SortedPairs<T>(s: seq<T>, le: (T, T) -> bool) {
    forall i, j :: 0 <= i < j < |s| ==> le(s[i], s[j])
  }

  function Insert<T(!new)>(x: T, s: seq<T>, le: (T, T) -> bool): (r: seq<T>)
    requires Total(le)
    ensures multiset(r) == multiset(s) + multiset{x}
    ensures |r| == |s| + 1
    ensures r[0] == x || (s != [] && r[0] == s[0])
    ensures Sorted(s, le) ==> Sorted(r, le)
  {
    if s == [] then [x]
    else if le(x, s[0]) then [x] + s
    else
      assert s == [s[0]] + s[1..];
      [s[0]] + Insert(x, s[1..], le)
  }

  /** `list.sort` driven by a comparator: a sorted permutation of `s`. Python's sort is a
      library routine; any sorted permutation is an acceptable outcome, and this one is
      insertion sort. */
  function SortBy<T(!new)>(s: seq<T>, le: (T, T) -> bool): (r: seq<T>)
    requires Total(le)
    ensures multiset(r) == multiset(s)
    ensures |r| == |s|
    ensures Sorted(r, le)
  {
    if s == [] then []
    else
      assert s == [s[0]] + s[1..];
      Insert(s[0], SortBy(s[1..], le), le)
  }

  /** Under a transitive relation, neighbours in order means every pair in order. */
  lemma {:induction false} SortedAllPairs<T(!new)>(s: seq<T>, le: (T, T) -> bool)
    requires Transitive(le) && Sorted(s, le)
    ensures SortedPairs(s, le)
  {
    if |s| > 1 {
      SortedAllPairs(s[1..], le);
      forall j | 0 < j < |s| ensures le(s[0], s[j]) {
        if j > 1 {
          assert le(s[1..][0], s[1..][j - 1]);
        }
      }
      forall i, j | 0 <= i < j < |s| ensures le(s[i], s[j]) {
        if i > 0 {
          assert le(s[1..][i - 1], s[1..][j - 1]);
        }
      }
    }
  }

  /** A value occurs at most once in a sequence without repetitions. */
  lemma {:induction false} DistinctCount<T>(s: seq<T>, x: T)
    requires Distinct(s)
    ensures multiset(s)[x] <= 1
  {
    if s != [] {
      assert s == [s[0]] + s[1..];
      assert Distinct(s[1..]) by {
        forall i, j | 0 <= i < j < |s[1..]| ensures s[1..][i] != s[1..][j] {
          assert s[1..][i] == s[i + 1] && s[1..][j] == s[j + 1];
        }
      }
      DistinctCount(s[1..], x);
      if s[0] == x {
        assert x !in s[1..] by {
          forall k | 0 <= k < |s[1..]| ensures s[1..][k] != x {
            assert s[1..][k] == s[k + 1];
          }
        }
      }
    }
  }

  /** A value at two positions occurs at least twice. */
  lemma TwiceCount<T>(s: seq<T>, i: nat, j: nat)
    requires i < j < |s| && s[i] == s[j]
    ensures multiset(s)[s[i]] >= 2
  {
    assert s == s[..j] + [s[j]] + s[j + 1..];
    assert s[..j][i] == s[i];
    assert s[i] in multiset(s[..j]);
  }

  /** Rearranging a sequence without repetitions gives one without repetitions. */
  lemma DistinctPermutation<T>(a: seq<T>, b: seq<T>)
    requires multiset(a) == multiset(b) && Distinct(a)
    ensures Distinct(b)
  {
    forall i, j | 0 <= i < j < |b| ensures b[i] != b[j] {
      if b[i] == b[j] {
        TwiceCount(b, i, j);
        DistinctCount(a, b[i]);
      }
    }
  }
  /** Taking the last element of `xs` out of a rearrangement `ys` of it leaves a
      rearrangement of the rest. */
  lemma RemoveMatching<T>(xs: seq<T>, ys: seq<T>, k: nat)
    requires multiset(xs) == multiset(ys) && xs != [] && k < |ys| && ys[k] == xs[|xs| - 1]
    ensures multiset(xs[..|xs| - 1]) == multiset(ys[..k] + ys[k + 1..])
  {
    var c := xs[|xs| - 1];
    assert xs == xs[..|xs| - 1] + [c];
    assert ys == ys[..k] + [c] + ys[k + 1..];
    var rest := ys[..k] + ys[k + 1..];
    assert multiset(ys) == multiset(ys[..k]) + multiset{c} + multiset(ys[k + 1..]);
    assert multiset(ys) == multiset(rest) + multiset{c};
    assert multiset(xs) == multiset(xs[..|xs| - 1]) + multiset{c};
    assert multiset(rest) == multiset(ys) - multiset{c};
  }
  /** Two sequences without repetitions and with the same elements are rearrangements of
      each other. */
  lemma DistinctSameElements<T>(a: seq<T>, b: seq<T>)
    requires Distinct(a) && Distinct(b) && forall x :: x in a <==> x in b
    ensures multiset(a) == multiset(b)
  {
    forall x ensures multiset(a)[x] == multiset(b)[x] {
      DistinctCount(a, x);
      DistinctCount(b, x);
      assert x in a <==> x in multiset(a);
      assert x in b <==> x in multiset(b);
    }
  }
  /** Counting in a slice one element longer. */
  lemma CountSnoc<T>(s: seq<T>, i: nat, j: nat, x: T)
    requires i < j <= |s|
    ensures multiset(s[i..j])[x] == multiset(s[i..j - 1])[x] + (if s[j - 1] == x then 1 else 0)
  {
    assert s[i..j] == s[i..j - 1] + [s[j - 1]];
  }

  /** Moving a middle part to the end keeps the multiset. */
  lemma MultisetMiddle<T>(a: seq<T>, f: seq<T>, b: seq<T>)
    ensures multiset(a + f + b) == multiset(a + b) + multiset(f)
  {
    assert multiset(a + f + b) == multiset(a) + multiset(f) + multiset(b);
    assert multiset(a + b) == multiset(a) + multiset(b);
  }
  lemma DistinctPrefix<T>(s: seq<T>)
    requires Distinct(s) && s != []
    ensures Distinct(s[..|s| - 1])
  {
    var p := s[..|s| - 1];
    forall i, j | 0 <= i < j < |p| ensures p[i] != p[j] {
      assert p[i] == s[i] && p[j] == s[j];
    }
  }
}
