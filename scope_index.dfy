/** Stage 1 of the miner: one pass over the text that records, for every qualifying
    character, the scope (the next `depth` characters) after each of its occurrences, and the
    choice of the characters that occur often enough to be searched. */
module ScopeIndex {
  import opened Text
  import opened Seqs
  import opened StringIO

  /** One value of the character map: the occurrence counter and the scopes, in text order. */
  datatype CharEntry = CharEntry(count: nat, scopes: seq<string>)

  /** The scope read after the occurrence at position `i`: exactly the `depth` characters
      that follow it, fewer only when the text ends first (all the rest when `depth` is
      negative). */
  function Scope(t: string, i: nat, depth: int): (r: string)
    requires i < |t|
    ensures i + 1 + |r| <= |t| && r == t[i + 1..i + 1 + |r|]
    ensures depth >= 0 ==> |r| <= depth
    ensures i + 1 + |r| < |t| ==> |r| == depth
  {
    Span(t, i + 1, depth)
  }

  /** The scopes of the occurrences of `c` in `t[lo..hi]`, in text order. */
  function ScopesOf(t: string, lo: nat, hi: nat, c: char, depth: int): seq<string>
    requires lo <= hi <= |t|
    decreases hi - lo
  {
    if hi == lo then []
    else ScopesOf(t, lo, hi - 1, c, depth)
         + (if t[hi - 1] == c then [Scope(t, hi - 1, depth)] else [])
  }

  /** There is one scope per occurrence. */
  lemma {:induction false} ScopesOfCount(t: string, lo: nat, hi: nat, c: char, depth: int)
    requires lo <= hi <= |t|
    ensures |ScopesOf(t, lo, hi, c, depth)| == multiset(t[lo..hi])[c]
    decreases hi - lo
  {
    if hi > lo {
      ScopesOfCount(t, lo, hi - 1, c, depth);
      assert |ScopesOf(t, lo, hi, c, depth)|
          == |ScopesOf(t, lo, hi - 1, c, depth)| + (if t[hi - 1] == c then 1 else 0);
      CountSnoc(t, lo, hi, c);
    }
  }

  /** Every recorded scope is the scope of some occurrence of `c`. */
  lemma {:induction false} ScopesOfSound(t: string, lo: nat, hi: nat, c: char, depth: int)
    requires lo <= hi <= |t|
    ensures forall s :: s in ScopesOf(t, lo, hi, c, depth) ==>
              exists i :: lo <= i < hi && t[i] == c && s == Scope(t, i, depth)
    decreases hi - lo
  {
    if hi > lo {
      ScopesOfSound(t, lo, hi - 1, c, depth);
    }
  }

  /** The qualifying characters of `t[lo..hi]`, in text order. */
  function QualifyingIn(t: string, lo: nat, hi: nat): string
    requires lo <= hi <= |t|
    decreases hi - lo
  {
    if hi == lo then []
    else QualifyingIn(t, lo, hi - 1) + (if Qualifies(t[hi - 1]) then [t[hi - 1]] else [])
  }

  lemma {:induction false} QualifyingInMembers(t: string, lo: nat, hi: nat)
    requires lo <= hi <= |t|
    ensures forall c :: c in QualifyingIn(t, lo, hi) <==> c in t[lo..hi] && Qualifies(c)
    decreases hi - lo
  {
    if hi > lo {
      QualifyingInMembers(t, lo, hi - 1);
      assert t[lo..hi] == t[lo..hi - 1] + [t[hi - 1]];
    }
  }

  /** The character map after reading `t[lo..hi]`: the keys are the qualifying characters
      read, in the order of their first occurrence, each with one scope per occurrence and its
      counter equal to that number. */
  ghost predicate IndexedUpTo(t: string, lo: nat, hi: nat, depth: int,
                              index: map<char, CharEntry>, order: seq<char>)
    requires lo <= hi <= |t|
  {
    && (forall c :: c in index <==> c in order)
    && order == Dedup(QualifyingIn(t, lo, hi))
    && (forall c :: c in index ==>
          index[c].scopes == ScopesOf(t, lo, hi, c, depth)
          && index[c].count == |index[c].scopes|)
  }

  /** A character that does not qualify leaves the map as it was. */
  lemma IndexSkip(t: string, lo: nat, at: nat, depth: int,
                  index: map<char, CharEntry>, order: seq<char>)
    requires lo <= at < |t| && IndexedUpTo(t, lo, at, depth, index, order)
    requires !Qualifies(t[at])
    ensures IndexedUpTo(t, lo, at + 1, depth, index, order)
  {
    assert QualifyingIn(t, lo, at + 1) == QualifyingIn(t, lo, at);
    QualifyingInMembers(t, lo, at);
    forall d | d in index
      ensures index[d].scopes == ScopesOf(t, lo, at + 1, d, depth)
    {
      assert d in QualifyingIn(t, lo, at) by {
        assert d in order;
      }
      assert d != t[at];
      assert ScopesOf(t, lo, at + 1, d, depth) == ScopesOf(t, lo, at, d, depth) + [];
    }
  }

  /** Reading a qualifying character adds one scope to that character's list and leaves
      the other lists alone. */
  lemma ScopesOfStep(t: string, lo: nat, at: nat, depth: int, d: char)
    requires lo <= at < |t|
    ensures ScopesOf(t, lo, at + 1, d, depth)
         == ScopesOf(t, lo, at, d, depth) + (if t[at] == d then [Scope(t, at, depth)] else [])
  {
  }

  /** The first occurrence of a character has no earlier scopes. */
  lemma ScopesOfAbsent(t: string, lo: nat, at: nat, depth: int, c: char)
    requires lo <= at <= |t| && c !in QualifyingIn(t, lo, at) && Qualifies(c)
    ensures ScopesOf(t, lo, at, c, depth) == []
  {
    QualifyingInMembers(t, lo, at);
    ScopesOfCount(t, lo, at, c, depth);
    assert c !in t[lo..at];
    assert multiset(t[lo..at])[c] == 0;
  }

  /** The scope lists and counters after recording one more occurrence of `t[at]`. */
  lemma RecordScopes(t: string, lo: nat, at: nat, depth: int,
                     index: map<char, CharEntry>, item: CharEntry, index': map<char, CharEntry>)
    requires lo <= at < |t|
    requires forall c :: c in index ==>
      index[c].scopes == ScopesOf(t, lo, at, c, depth) && index[c].count == |index[c].scopes|
    requires t[at] !in index ==> ScopesOf(t, lo, at, t[at], depth) == []
    requires item == if t[at] in index then index[t[at]] else CharEntry(0, [])
    requires index' == index[t[at] := CharEntry(item.count + 1, item.scopes + [Scope(t, at, depth)])]
    ensures forall c :: c in index' ==>
      index'[c].scopes == ScopesOf(t, lo, at + 1, c, depth) && index'[c].count == |index'[c].scopes|
  {
    forall d | d in index'
      ensures index'[d].scopes == ScopesOf(t, lo, at + 1, d, depth)
      ensures index'[d].count == |index'[d].scopes|
    {
      ScopesOfStep(t, lo, at, depth, d);
    }
  }

  /** The character map state from its three parts. */
  lemma IndexedUpToIntro(t: string, lo: nat, hi: nat, depth: int,
                         index: map<char, CharEntry>, order: seq<char>)
    requires lo <= hi <= |t|
    requires forall c :: c in index <==> c in order
    requires order == Dedup(QualifyingIn(t, lo, hi))
    requires forall c :: c in index ==>
      index[c].scopes == ScopesOf(t, lo, hi, c, depth) && index[c].count == |index[c].scopes|
    ensures IndexedUpTo(t, lo, hi, depth, index, order)
  {
  }

  /** A qualifying character seen for the first time becomes a new key, at the end of the
      order. */
  lemma RecordOrder(t: string, lo: nat, at: nat, index: map<char, CharEntry>, order: seq<char>,
                    index': map<char, CharEntry>, order': seq<char>)
    requires lo <= at < |t|
    requires forall c :: c in index <==> c in order
    requires order == Dedup(QualifyingIn(t, lo, at))
    requires Qualifies(t[at])
    requires order' == if t[at] in index then order else order + [t[at]]
    requires forall d :: d in index' <==> d in index || d == t[at]
    ensures order' == Dedup(QualifyingIn(t, lo, at + 1))
    ensures forall d :: d in index' <==> d in order'
  {
    var q := QualifyingIn(t, lo, at);
    assert QualifyingIn(t, lo, at + 1) == q + [t[at]];
    DedupSnoc(q, t[at]);
  }

  /** Entering a missing key with an empty entry and then updating it is one update of the
      map. */
  lemma EnterThenUpdate(index: map<char, CharEntry>, c: char, scope: string,
                        mid: map<char, CharEntry>, index': map<char, CharEntry>)
    requires mid == if c in index then index else index[c := CharEntry(0, [])]
    requires index' == mid[c := CharEntry(mid[c].count + 1, mid[c].scopes + [scope])]
    ensures var item := if c in index then index[c] else CharEntry(0, []);
      index' == index[c := CharEntry(item.count + 1, item.scopes + [scope])]
  {
  }

  /** A qualifying character gets one more scope and one more count, and a new key at the
      end of the order when it is seen for the first time. */
  lemma IndexRecord(t: string, lo: nat, at: nat, depth: int,
                    index: map<char, CharEntry>, order: seq<char>, item: CharEntry,
                    index': map<char, CharEntry>, order': seq<char>)
    requires lo <= at < |t| && IndexedUpTo(t, lo, at, depth, index, order)
    requires Qualifies(t[at])
    requires item == if t[at] in index then index[t[at]] else CharEntry(0, [])
    requires order' == if t[at] in index then order else order + [t[at]]
    requires index' == index[t[at] := CharEntry(item.count + 1, item.scopes + [Scope(t, at, depth)])]
    ensures IndexedUpTo(t, lo, at + 1, depth, index', order')
  {
    var c := t[at];
    RecordOrder(t, lo, at, index, order, index', order');
    if c !in index {
      assert c !in QualifyingIn(t, lo, at);
      ScopesOfAbsent(t, lo, at, depth, c);
    }
    RecordScopes(t, lo, at, depth, index, item, index');
    IndexedUpToIntro(t, lo, at + 1, depth, index', order');
  }

  /** The character map of the whole rest of the text, stated on the text itself. */
  lemma IndexComplete(t: string, lo: nat, depth: int, index: map<char, CharEntry>, order: seq<char>)
    requires lo <= |t| && IndexedUpTo(t, lo, |t|, depth, index, order)
    ensures forall c :: c in index <==> c in t[lo..] && Qualifies(c)
    ensures forall c :: c in index ==> index[c].count == multiset(t[lo..])[c]
  {
    QualifyingInMembers(t, lo, |t|);
    assert t[lo..|t|] == t[lo..];
    forall c | c in index
      ensures index[c].count == multiset(t[lo..])[c]
    {
      ScopesOfCount(t, lo, |t|, c, depth);
    }
  }

  /** The character map of `t[lo..]`: every qualifying character with the scopes of its
      occurrences and their number. */
  function IndexOf(t: string, lo: nat, depth: int): (index: map<char, CharEntry>)
    requires lo <= |t|
    ensures forall c :: c in index <==> c in QualifyingIn(t, lo, |t|)
  {
    map c | c in QualifyingIn(t, lo, |t|) ::
      CharEntry(|ScopesOf(t, lo, |t|, c, depth)|, ScopesOf(t, lo, |t|, c, depth))
  }

  /** An entry of the character map of a text: the scopes of that character and their
      number, which is its number of occurrences. */
  lemma IndexOfEntry(t: string, lo: nat, depth: int, c: char)
    requires lo <= |t| && c in IndexOf(t, lo, depth)
    ensures Qualifies(c)
    ensures IndexOf(t, lo, depth)[c].scopes == ScopesOf(t, lo, |t|, c, depth)
    ensures IndexOf(t, lo, depth)[c].count == multiset(t[lo..])[c]
  {
    QualifyingInMembers(t, lo, |t|);
    ScopesOfCount(t, lo, |t|, c, depth);
    assert t[lo..|t|] == t[lo..];
  }

  /** The character map after the whole rest of the text is `IndexOf` that text. */
  lemma IndexIsIndexOf(t: string, lo: nat, depth: int, index: map<char, CharEntry>, order: seq<char>)
    requires lo <= |t| && IndexedUpTo(t, lo, |t|, depth, index, order)
    ensures index == IndexOf(t, lo, depth)
  {
    assert forall c :: c in index <==> c in QualifyingIn(t, lo, |t|);
  }

  /** Everything the finished character map says about the rest of the text. */
  lemma IndexFinal(t: string, lo: nat, depth: int, index: map<char, CharEntry>, order: seq<char>)
    requires lo <= |t| && IndexedUpTo(t, lo, |t|, depth, index, order)
    ensures && (forall c :: c in index <==> c in t[lo..] && Qualifies(c))
      && (forall c :: c in index <==> c in order)
      && order == Dedup(QualifyingIn(t, lo, |t|))
      && (forall c :: c in index ==>
            && index[c].scopes == ScopesOf(t, lo, |t|, c, depth)
            && index[c].count == |index[c].scopes|
            && index[c].count == multiset(t[lo..])[c])
      && index == IndexOf(t, lo, depth)
  {
    IndexComplete(t, lo, depth, index, order);
    IndexIsIndexOf(t, lo, depth, index, order);
  }

  /** One character just read at `hi`: one that does not qualify is skipped; otherwise its
      key is entered (at the end of the order) when missing, the scope that follows is
      peeked at without moving the position, and the entry gets that scope and one more
      count. */
  method IndexChar(b: StringBuffer, c: char, depth: int,
                   index: map<char, CharEntry>, order: seq<char>,
                   ghost t: string, ghost lo: nat, ghost hi: nat)
    returns (index': map<char, CharEntry>, order': seq<char>)
    requires b.text == t && lo <= hi < |t| && b.pos == hi + 1 && c == t[hi]
    requires IndexedUpTo(t, lo, hi, depth, index, order)
    modifies b
    ensures b.pos == old(b.pos)
    ensures !Qualifies(c) ==> index' == index && order' == order
    ensures Qualifies(c) ==> order' == if c in index then order else order + [c]
    ensures Qualifies(c) ==>
      var item := if c in index then index[c] else CharEntry(0, []);
      index' == index[c := CharEntry(item.count + 1, item.scopes + [Scope(t, hi, depth)])]
    ensures IndexedUpTo(t, lo, hi + 1, depth, index', order')
  {
    index', order' := index, order;
    if !Qualifies(c) {
      IndexSkip(t, lo, hi, depth, index, order);
      return;
    }
    if c !in index' {
      index' := index'[c := CharEntry(0, [])];
      order' := order' + [c];
    }
    var position := b.Tell();
    var scope := b.Read(depth);
    b.Seek(position);
    assert scope == Scope(t, hi, depth);
    ghost var mid := index';
    var item := index'[c];
    index' := index'[c := CharEntry(item.count + 1, item.scopes + [scope])];
    EnterThenUpdate(index, c, scope, mid, index');
    IndexRecord(t, lo, hi, depth, index, order,
                if c in index then index[c] else CharEntry(0, []), index', order');
  }

  /** The character map built from the buffer's position to its end. Peeking at a scope
      leaves the position where it was, so every character is visited exactly once. */
  method BuildScopeIndex(b: StringBuffer, depth: int)
    returns (index: map<char, CharEntry>, order: seq<char>)
    modifies b
    ensures b.pos == if old(b.pos) <= |b.text| then |b.text| else old(b.pos)
    ensures var lo := if old(b.pos) <= |b.text| then old(b.pos) else |b.text|;
      && (forall c :: c in index <==> c in b.text[lo..] && Qualifies(c))
      && (forall c :: c in index <==> c in order)
      && order == Dedup(QualifyingIn(b.text, lo, |b.text|))
      && (forall c :: c in index ==>
            && index[c].scopes == ScopesOf(b.text, lo, |b.text|, c, depth)
            && index[c].count == |index[c].scopes|
            && index[c].count == multiset(b.text[lo..])[c])
      && index == IndexOf(b.text, lo, depth)
  {
    ghost var t := b.text;
    ghost var lo := if b.pos <= |t| then b.pos else |t|;
    ghost var hi := lo;
    index, order := map[], [];
    while true
      invariant b.text == t && lo <= hi <= |t|
      invariant if old(b.pos) <= |t| then b.pos == hi else b.pos == old(b.pos) && hi == |t|
      invariant IndexedUpTo(t, lo, hi, depth, index, order)
      decreases |t| - hi
    {
      var ch := b.Read(1);
      if ch == [] {
        break;
      }
      assert hi < |t| && ch == t[hi..hi + 1] && b.pos == hi + 1;
      index, order := IndexChar(b, ch[0], depth, index, order, t, lo, hi);
      hi := hi + 1;
    }
    IndexFinal(t, lo, depth, index, order);
  }

  /** The characters kept in order: those whose counter is above two. */
  function Frequent(order: seq<char>, index: map<char, CharEntry>): (r: seq<char>)
    requires forall c :: c in order ==> c in index
    ensures forall c :: c in r <==> c in order && index[c].count > 2
    ensures Subsequence(r, order)
    ensures Distinct(order) ==> Distinct(r)
    ensures |r| <= |order|
  {
    if order == [] then []
    else
      var init := order[..|order| - 1];
      var c := order[|order| - 1];
      assert order == init + [c];
      var r0 := Frequent(init, index);
      if index[c].count > 2 then
        assert (r0 + [c])[..|r0|] == r0;
        assert Distinct(order) ==> c !in init && Distinct(init) by {
          if Distinct(order) {
            DistinctPrefix(order);
          }
        }
        r0 + [c]
      else
        r0
  }

  /** The filter over the character map: only characters seen more than twice go on to the
      suffix search, in map order. */
  method FrequentChars(order: seq<char>, index: map<char, CharEntry>) returns (chars: seq<char>)
    requires forall c :: c in order ==> c in index
    ensures chars == Frequent(order, index)
    ensures forall c :: c in chars <==> c in order && index[c].count > 2
  {
    chars := [];
    for k := 0 to |order|
      invariant chars == Frequent(order[..k], index)
    {
      assert order[..k + 1][..k] == order[..k];
      if index[order[k]].count > 2 {
        chars := chars + [order[k]];
      }
    }
    assert order[..|order|] == order;
  }
  /** A character's counter, zero for a character not in the map. */
  function CountOf(index: map<char, CharEntry>, c: char): nat {
    if c in index then index[c].count else 0
  }

  /** The order `char_rank_sort` sorts by: a character comes first when it is more frequent,
      so the list ends up descending by counter. */
  function ByCount(index: map<char, CharEntry>): (char, char) -> bool {
    (a: char, b: char) => CountOf(index, a) >= CountOf(index, b)
  }

  lemma ByCountIsOrder(index: map<char, CharEntry>)
    ensures Total(ByCount(index)) && Transitive(ByCount(index))
  {
  }

  /** `char_list.sort` with `char_rank_sort`: the same characters, most frequent first. */
  function ByFrequency(chars: seq<char>, index: map<char, CharEntry>): (r: seq<char>)
    ensures multiset(r) == multiset(chars) && |r| == |chars|
    ensures forall c :: c in r <==> c in chars
    ensures forall i :: 0 < i < |r| ==> CountOf(index, r[i - 1]) >= CountOf(index, r[i])
  {
    ByCountIsOrder(index);
    var r := SortBy(chars, ByCount(index));
    assert forall c :: c in r <==> c in multiset(chars);
    r
  }
}
