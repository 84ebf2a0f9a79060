/** Characters, string comparison and the (word, frequency) record shared by every stage of
    the hot-word miner. Strings are sequences of Unicode code points, as in Python 3. */
module Text {

  /** The exclusion tuple: punctuation and two very common characters that never start or
      continue a hot word (besides every ASCII character). */
  const Excludes: set<char> := {
    '\U{3002}', '\U{FF0C}', '\U{FF1B}', '\U{FF1A}', '\U{2026}', '\U{FF08}', '\U{FF09}',
    '\U{300A}', '\U{300B}', '\U{FF1F}', '\U{FF01}', '\U{3001}', '\U{201C}', '\U{201D}',
    '\U{2014}', '[', ']', '\U{3010}', '\U{3011}', '\U{00B0}', '\U{7684}', '\U{4E2A}'
  }

  /** A character that may be part of a hot word: not ASCII (code point above 0x7F) and not
      excluded. */
  predicate Qualifies(c: char) {
    c as int > 0x7F && c !in Excludes
  }

  /** A hot word (or candidate) with its frequency. */
  datatype Candidate = Candidate(word: string, freq: nat)

  /** No word appears twice in a list of candidates. */
  ghost predicate DistinctWords(r: seq<Candidate>) {
    forall i, j :: 0 <= i < j < |r| ==> r[i].word != r[j].word
  }

  /** One more candidate whose word is not in the list yet. */
  lemma DistinctWordsSnoc(r: seq<Candidate>, x: Candidate)
    requires DistinctWords(r) && forall y :: y in r ==> y.word != x.word
    ensures DistinctWords(r + [x])
  {
    var r' := r + [x];
    forall i, j | 0 <= i < j < |r'| ensures r'[i].word != r'[j].word {
      assert r'[i] == r[i];
      if j < |r| {
        assert r'[j] == r[j];
      } else {
        assert r[i] in r;
      }
    }
  }

  /** Python's `u.endswith(w)`. */
  predicate EndsWith(u: string, w: string) {
    |w| <= |u| && u[|u| - |w|..] == w
  }

  /** Python's `a < b` on strings: lexicographic by code point, a proper prefix first. */
  predicate LexLess(a: string, b: string) {
    if a == [] then b != []
    else if b == [] then false
    else if a[0] != b[0] then a[0] < b[0]
    else LexLess(a[1..], b[1..])
  }

  /** The redundancy tag `w[-1:-3:-1]`: the last two characters in reverse order, or the
      whole word when it is shorter than two characters. */
  function Tag(w: string): (t: string)
    ensures |t| == if |w| >= 2 then 2 else |w|
    ensures |w| >= 2 ==> t[0] == w[|w| - 1] && t[1] == w[|w| - 2]
    ensures |w| < 2 ==> t == w
  {
    if |w| >= 2 then [w[|w| - 1], w[|w| - 2]] else w
  }

  /** A word of length at least two that ends another word has that word's tag, so only
      words sharing a tag can make one another redundant. */
  lemma EndsWithSameTag(u: string, w: string)
    requires EndsWith(u, w) && |w| >= 2
    ensures Tag(u) == Tag(w)
  {
    var k := |u| - |w|;
    assert u[k..][|w| - 1] == u[|u| - 1] && u[k..][|w| - 2] == u[|u| - 2];
  }

  lemma {:induction false} LexLessIrreflexive(a: string)
    ensures !LexLess(a, a)
  {
    if a != [] {
      LexLessIrreflexive(a[1..]);
    }
  }

  lemma {:induction false} LexLessTransitive(a: string, b: string, c: string)
    requires LexLess(a, b) && LexLess(b, c)
    ensures LexLess(a, c)
  {
    if a != [] && b != [] && c != [] && a[0] == b[0] && b[0] == c[0] {
      LexLessTransitive(a[1..], b[1..], c[1..]);
    }
  }

  lemma {:induction false} LexLessTotal(a: string, b: string)
    ensures a == b || LexLess(a, b) || LexLess(b, a)
  {
    if a != [] && b != [] && a[0] == b[0] {
      LexLessTotal(a[1..], b[1..]);
      if a[1..] == b[1..] {
        assert a == [a[0]] + a[1..] && b == [b[0]] + b[1..];
      }
    }
  }

  /** Python's string order is a strict total order. */
  lemma LexLessStrictTotalOrder(a: string, b: string, c: string)
    ensures !LexLess(a, a)
    ensures LexLess(a, b) ==> !LexLess(b, a)
    ensures LexLess(a, b) && LexLess(b, c) ==> LexLess(a, c)
    ensures a == b || LexLess(a, b) || LexLess(b, a)
  {
    LexLessIrreflexive(a);
    LexLessTotal(a, b);
    if LexLess(a, b) && LexLess(b, a) {
      LexLessTransitive(a, b, a);
    }
    if LexLess(a, b) && LexLess(b, c) {
      LexLessTransitive(a, b, c);
    }
  }
}
