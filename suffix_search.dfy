/** Stage 2 of the miner: the recursive suffix expansion. The scopes that follow a prefix are
    grouped by their next character, like the children of a trie node built on demand, and
    the search goes on into every group until the continuation becomes unique or a scope runs
    out, at which point the prefix is emitted as a hot-word candidate. */
module SuffixSearch {
  import opened Text

  /** One entry of the continuation map: a next character and the remainders of the scopes
      that continue with it, in input order. Its counter is the length of `rests`. */
  datatype Group = Group(ch: char, rests: seq<string>)

  function MaxLen(scopes: seq<string>): (m: nat)
    ensures forall s :: s in scopes ==> |s| <= m
    ensures scopes != [] ==> exists s :: s in scopes && |s| == m
  {
    if scopes == [] then 0
    else
      var m := MaxLen(scopes[1..]);
      assert scopes == [scopes[0]] + scopes[1..];
      if |scopes[0]| > m then |scopes[0]| else m
  }

  /** A scope that goes on into a group: it is not exhausted and its next character is
      neither ASCII nor excluded. */
  predicate Continues(s: string) {
    s != [] && Qualifies(s[0])
  }

  /** How many scopes stop the search here (each of them emits the prefix). */
  function Stopped(scopes: seq<string>): nat {
    if scopes == [] then 0
    else Stopped(scopes[..|scopes| - 1]) + (if Continues(scopes[|scopes| - 1]) then 0 else 1)
  }

  /** Dictionary lookup: the position of the group for `c`, or the number of groups. */
  function Find(groups: seq<Group>, c: char): (i: nat)
    ensures i <= |groups|
    ensures i < |groups| ==> groups[i].ch == c
    ensures i == |groups| ==> forall g :: g in groups ==> g.ch != c
  {
    if groups == [] then 0
    else if groups[0].ch == c then 0
    else
      assert groups == [groups[0]] + groups[1..];
      1 + Find(groups[1..], c)
  }

  /** Files a remainder under character `c`: appended to that group, or a new group at the
      end of the map. */
  function AddRest(groups: seq<Group>, c: char, rest: string): seq<Group> {
    var i := Find(groups, c);
    if i == |groups| then groups + [Group(c, [rest])]
    else groups[i := Group(c, groups[i].rests + [rest])]
  }

  /** The continuation map built by the first loop over `scopes`. */
  function Partition(scopes: seq<string>): seq<Group> {
    if scopes == [] then []
    else
      var groups := Partition(scopes[..|scopes| - 1]);
      var s := scopes[|scopes| - 1];
      if Continues(s) then AddRest(groups, s[0], s[1..]) else groups
  }

  /** The remainders in a group are shorter than the longest scope, so the search goes
      deeper only on shorter scopes. */
  lemma GroupsShorter(groups: seq<Group>, scopes: seq<string>)
    requires GroupsOf(groups, scopes)
    ensures Bounded(groups, MaxLen(scopes))
  {
    forall g | g in groups ensures forall r :: r in g.rests ==> |r| < MaxLen(scopes) {
      forall r | r in g.rests ensures |r| < MaxLen(scopes) {
        assert [g.ch] + r in scopes;
      }
    }
  }

  /** Each group is non-empty, its character qualifies, and each of its remainders is what is
      left of one scope after that character. */
  ghost predicate GroupsOf(groups: seq<Group>, scopes: seq<string>) {
    forall g :: g in groups ==>
      && g.rests != []
      && Qualifies(g.ch)
      && forall r :: r in g.rests ==> [g.ch] + r in scopes
  }

  lemma {:induction false} PartitionSound(scopes: seq<string>)
    ensures GroupsOf(Partition(scopes), scopes)
  {
    if scopes != [] {
      var init := scopes[..|scopes| - 1];
      var s := scopes[|scopes| - 1];
      PartitionSound(init);
      assert scopes == init + [s];
      var groups := Partition(init);
      if Continues(s) {
        assert s == [s[0]] + s[1..];
        var i := Find(groups, s[0]);
        if i < |groups| {
          assert forall k :: 0 <= k < |groups| && k != i ==> AddRest(groups, s[0], s[1..])[k] == groups[k];
        }
      }
    }
  }

  function Repeat(w: string, n: nat): (r: seq<string>)
    ensures |r| == n && forall x :: x in r ==> x == w
  {
    if n == 0 then [] else Repeat(w, n - 1) + [w]
  }

  /** What `iterate_search(scopes, hotword)` returns: the prefix once for each scope that stops
      here (when the prefix has two characters or more), then, group by group in map order,
      the prefix for a group of one (likewise), or else the search one character deeper. */
  function Search(scopes: seq<string>, hotword: string): seq<string>
    decreases MaxLen(scopes), 1, 0
  {
    PartitionSound(scopes);
    Repeat(hotword, if |hotword| >= 2 then Stopped(scopes) else 0)
      + Expand(Partition(scopes), |Partition(scopes)|, hotword, MaxLen(scopes))
  }

  /** Every group is non-empty and its remainders are shorter than `bound`. */
  ghost predicate Bounded(groups: seq<Group>, bound: nat) {
    forall i :: 0 <= i < |groups| ==>
      groups[i].rests != [] && forall r :: r in groups[i].rests ==> |r| < bound
  }

  /** The second loop over the first `n` groups of the continuation map; `bound` exceeds
      every remainder's length. */
  function Expand(groups: seq<Group>, n: nat, hotword: string, ghost bound: nat): seq<string>
    requires n <= |groups| && Bounded(groups, bound)
    decreases bound, 0, n
  {
    if n == 0 then []
    else
      var g := groups[n - 1];
      Expand(groups, n - 1, hotword, bound)
        + (if |g.rests| == 1 && |hotword| > 1 then [hotword]
           else Search(g.rests, hotword + [g.ch]))
  }

  /** `w` is `hotword` followed by a prefix of scope `s`. */
  ghost predicate Extends(w: string, hotword: string, s: string) {
    |hotword| <= |w| <= |hotword| + |s| && w[..|hotword|] == hotword
    && w[|hotword|..] == s[..|w| - |hotword|]
  }

  /** The shape of an emitted word: at least two characters, the prefix followed by the start
      of one of the scopes, and every added character qualifying. */
  ghost predicate Shaped(w: string, hotword: string, scopes: seq<string>) {
    && |w| >= 2
    && (exists s :: s in scopes && Extends(w, hotword, s))
    && forall j :: |hotword| <= j < |w| ==> Qualifies(w[j])
  }

  lemma ExtendsDeeper(w: string, hotword: string, c: char, r: string)
    requires Extends(w, hotword + [c], r)
    ensures Extends(w, hotword, [c] + r)
  {
    var n := |hotword|;
    assert w[..n] == w[..n + 1][..n];
    assert w[n..] == [w[n]] + w[n + 1..];
  }

  lemma {:induction false} SearchShape(scopes: seq<string>, hotword: string)
    ensures forall w :: w in Search(scopes, hotword) ==> Shaped(w, hotword, scopes)
    decreases MaxLen(scopes), 1, 0
  {
    PartitionSound(scopes);
    var n := if |hotword| >= 2 then Stopped(scopes) else 0;
    ExpandShape(Partition(scopes), |Partition(scopes)|, hotword, MaxLen(scopes), scopes);
    forall w | w in Repeat(hotword, n) ensures Shaped(w, hotword, scopes) {
      StoppedSome(scopes);
      assert Extends(w, hotword, scopes[0]);
    }
  }

  lemma {:induction false} StoppedSome(scopes: seq<string>)
    ensures Stopped(scopes) > 0 ==> scopes != []
  {
  }

  lemma {:induction false} ExpandShape(groups: seq<Group>, n: nat, hotword: string, bound: nat,
                                       scopes: seq<string>)
    requires n <= |groups| && Bounded(groups, bound)
    requires GroupsOf(groups, scopes)
    ensures forall w :: w in Expand(groups, n, hotword, bound) ==> Shaped(w, hotword, scopes)
    decreases bound, 0, n
  {
    if n > 0 {
      var g := groups[n - 1];
      assert g in groups;
      ExpandShape(groups, n - 1, hotword, bound, scopes);
      if |g.rests| == 1 && |hotword| > 1 {
        assert [g.ch] + g.rests[0] in scopes;
        assert Extends(hotword, hotword, [g.ch] + g.rests[0]);
      } else {
        SearchShape(g.rests, hotword + [g.ch]);
        forall w | w in Search(g.rests, hotword + [g.ch]) ensures Shaped(w, hotword, scopes) {
          var r :| r in g.rests && Extends(w, hotword + [g.ch], r);
          ExtendsDeeper(w, hotword, g.ch, r);
          assert [g.ch] + r in scopes;
          forall j | |hotword| <= j < |w| ensures Qualifies(w[j]) {
            if j == |hotword| {
              assert w[j] == w[..|hotword| + 1][j];
            }
          }
        }
      }
    }
  }

  /** Sum of the group sizes. */
  function Members(groups: seq<Group>): nat {
    if groups == [] then 0
    else Members(groups[..|groups| - 1]) + |groups[|groups| - 1].rests|
  }

  lemma {:induction false} MembersUpdate(groups: seq<Group>, i: nat, g: Group)
    requires i < |groups|
    ensures Members(groups[i := g]) == Members(groups) - |groups[i].rests| + |g.rests|
    decreases |groups|
  {
    var n := |groups|;
    if i < n - 1 {
      assert groups[i := g][..n - 1] == groups[..n - 1][i := g];
      MembersUpdate(groups[..n - 1], i, g);
    } else {
      assert groups[i := g][..n - 1] == groups[..n - 1];
    }
  }

  /** Every scope either stops here or lands in exactly one group. */
  lemma {:induction false} PartitionCount(scopes: seq<string>)
    ensures Stopped(scopes) + Members(Partition(scopes)) == |scopes|
  {
    if scopes != [] {
      var init := scopes[..|scopes| - 1];
      var s := scopes[|scopes| - 1];
      PartitionCount(init);
      if Continues(s) {
        var groups := Partition(init);
        var i := Find(groups, s[0]);
        if i < |groups| {
          MembersUpdate(groups, i, Group(s[0], groups[i].rests + [s[1..]]));
        } else {
          assert (groups + [Group(s[0], [s[1..]])])[..|groups|] == groups;
        }
      }
    }
  }

  /** Each input scope contributes at most one emitted word. */
  lemma {:induction false} SearchLength(scopes: seq<string>, hotword: string)
    ensures |Search(scopes, hotword)| <= |scopes|
    decreases MaxLen(scopes), 1, 0
  {
    PartitionSound(scopes);
    PartitionCount(scopes);
    var groups := Partition(scopes);
    ExpandLength(groups, |groups|, hotword, MaxLen(scopes));
    assert groups[..|groups|] == groups;
  }

  lemma {:induction false} ExpandLength(groups: seq<Group>, n: nat, hotword: string, bound: nat)
    requires n <= |groups| && Bounded(groups, bound)
    ensures |Expand(groups, n, hotword, bound)| <= Members(groups[..n])
    decreases bound, 0, n
  {
    if n > 0 {
      var g := groups[n - 1];
      assert groups[..n][..n - 1] == groups[..n - 1] && groups[..n][n - 1] == g;
      ExpandLength(groups, n - 1, hotword, bound);
      if !(|g.rests| == 1 && |hotword| > 1) {
        SearchLength(g.rests, hotword + [g.ch]);
      }
    }
  }

  /** `iterate_search`: the first loop builds the continuation map (emitting the prefix for
      every scope that stops), the second loop, `ExpandGroups`, walks the map in insertion
      order and recurses into every group that is not a unique continuation. */
  method IterateSearch(scopes: seq<string>, hotword: string) returns (words: seq<string>)
    ensures words == Search(scopes, hotword)
    ensures forall w :: w in words ==> Shaped(w, hotword, scopes)
    ensures |words| <= |scopes|
    decreases MaxLen(scopes), 1
  {
    var groups: seq<Group> := [];
    words := [];
    for r := 0 to |scopes|
      invariant groups == Partition(scopes[..r])
      invariant words == Repeat(hotword, if |hotword| >= 2 then Stopped(scopes[..r]) else 0)
    {
      ghost var seen := scopes[..r + 1];
      assert seen[..|seen| - 1] == scopes[..r] && seen[|seen| - 1] == scopes[r];
      var scope := scopes[r];
      if scope == [] || !Qualifies(scope[0]) {
        if |hotword| >= 2 {
          words := words + [hotword];
        }
      } else {
        var ch := scope[0];
        var i := Find(groups, ch);
        if i == |groups| {
          groups := groups + [Group(ch, [scope[1..]])];
        } else {
          groups := groups[i := Group(ch, groups[i].rests + [scope[1..]])];
        }
      }
    }
    assert scopes[..|scopes|] == scopes;
    assert Bounded(groups, MaxLen(scopes)) by {
      PartitionSound(scopes);
      GroupsShorter(groups, scopes);
    }
    var deeper := ExpandGroups(groups, hotword, MaxLen(scopes));
    words := words + deeper;
    assert forall w :: w in words ==> Shaped(w, hotword, scopes) by {
      SearchShape(scopes, hotword);
    }
    assert |words| <= |scopes| by {
      SearchLength(scopes, hotword);
    }
  }

  /** The second loop of `iterate_search`, over the whole continuation map. */
  method ExpandGroups(groups: seq<Group>, hotword: string, ghost bound: nat)
    returns (deeper: seq<string>)
    requires Bounded(groups, bound)
    ensures deeper == Expand(groups, |groups|, hotword, bound)
    decreases bound, 0
  {
    deeper := [];
    for k := 0 to |groups|
      invariant deeper == Expand(groups, k, hotword, bound)
    {
      var g := groups[k];
      if |g.rests| == 1 && |hotword| > 1 {
        deeper := deeper + [hotword];
      } else {
        var sub := IterateSearch(g.rests, hotword + [g.ch]);
        deeper := deeper + sub;
      }
    }
  }
}
