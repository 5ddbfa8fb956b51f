/** What the Aho-Corasick automaton of data_matcher.py must compute, and the
    facts about tries, suffixes and the breadth-first schedule that the
    proofs of its methods use.  The arena representation is described with
    the class in automaton.dfy. */
module AutomatonSpec {
  import opened Text

  /** The elements of a list, as Python's `set(xs)`. */
  function Elems(xs: seq<int>): set<int>
  {
    set x | x in xs
  }

  /** Indices added with exactly the pattern `s`: the output a node of string
      `s` holds before failure links are built. */
  ghost function Own(added: seq<(string, int)>, s: string): set<int>
  {
    set e | e in added && e.0 == s :: e.1
  }

  /** Indices of the non-empty patterns that end the string `s`: the output a
      node of string `s` must hold once failure links are built. */
  ghost function Ending(added: seq<(string, int)>, s: string): set<int>
  {
    set e | e in added && e.0 != [] && IsSuffix(e.0, s) :: e.1
  }

  /** Indices of the non-empty patterns that occur somewhere in `text`. */
  ghost function Found(added: seq<(string, int)>, text: string): set<int>
  {
    set e | e in added && e.0 != [] && Contains(text, e.0) :: e.1
  }

  /** `f` is the longest proper suffix of `s` that is a string of the trie
      `trie`: where the failure link of the node of `s` must point. */
  ghost predicate FailTarget(trie: set<string>, s: string, f: string)
  {
    |f| < |s| && IsSuffix(f, s) && f in trie &&
    forall k: nat :: |f| < k < |s| ==> Suffix(s, k) !in trie
  }

  /** `f` is the longest suffix of `s` (proper or not) in the trie: the string of the node
      search must stand at after reading `s`. */
  ghost predicate LongestIn(trie: set<string>, s: string, f: string)
  {
    IsSuffix(f, s) && f in trie &&
    forall k: nat :: |f| < k <= |s| ==> Suffix(s, k) !in trie
  }

  /** No suffix of `s` whose length lies in (lo, hi] can be extended by `c`
      inside the trie. */
  ghost predicate NoExtension(trie: set<string>, s: string, c: char, lo: int, hi: int)
  {
    hi <= |s| && forall k: nat :: lo < k <= hi ==> Suffix(s, k) + [c] !in trie
  }

  ghost predicate PrefixClosed(trie: set<string>)
  {
    forall s, k :: s in trie && 0 <= k <= |s| ==> s[..k] in trie
  }

  lemma SuffixTrans(a: string, b: string, s: string)
    requires IsSuffix(a, b) && IsSuffix(b, s)
    ensures IsSuffix(a, s)
  {
    assert s[|s| - |a|..] == b[|b| - |a|..];
  }

  /** A suffix of `s` that is no longer than the suffix `f` is a suffix of `f`. */
  lemma ShorterSuffix(a: string, f: string, s: string)
    requires IsSuffix(a, s) && IsSuffix(f, s) && |a| <= |f|
    ensures IsSuffix(a, f)
  {
    assert f[|f| - |a|..] == s[|s| - |a|..];
  }

  /** A suffix outside a prefix-closed trie has no extension inside it. */
  lemma NoExtensionOfAbsent(trie: set<string>, t: string, c: char)
    requires PrefixClosed(trie) && t !in trie
    ensures t + [c] !in trie
  {
    assert (t + [c])[..|t|] == t;
  }

  /** The walk may start at the failure target of `s`: nothing longer extends. */
  lemma StartAtFail(trie: set<string>, s: string, c: char, f: string)
    requires PrefixClosed(trie) && FailTarget(trie, s, f)
    ensures NoExtension(trie, s, c, |f|, |s| - 1)
  {
    forall k: nat | |f| < k <= |s| - 1
      ensures Suffix(s, k) + [c] !in trie
    {
      NoExtensionOfAbsent(trie, Suffix(s, k), c);
    }
  }

  /** The walk may start at the longest suffix of `s` in the trie. */
  lemma StartAtLongest(trie: set<string>, s: string, c: char, f: string)
    requires PrefixClosed(trie) && LongestIn(trie, s, f)
    ensures NoExtension(trie, s, c, |f|, |s|)
  {
    forall k: nat | |f| < k <= |s|
      ensures Suffix(s, k) + [c] !in trie
    {
      NoExtensionOfAbsent(trie, Suffix(s, k), c);
    }
  }

  /** One step along a failure link skips no candidate: every suffix of `s`
      strictly between the failure target `g` of `f` and `f` itself is absent
      from the trie, and `f` itself has no `c`-edge. */
  lemma FollowFail(trie: set<string>, s: string, c: char, f: string, g: string, hi: int)
    requires PrefixClosed(trie)
    requires IsSuffix(f, s) && |f| <= hi && NoExtension(trie, s, c, |f|, hi)
    requires f + [c] !in trie
    requires FailTarget(trie, f, g)
    ensures NoExtension(trie, s, c, |g|, hi)
  {
    forall k: nat | |g| < k <= hi
      ensures Suffix(s, k) + [c] !in trie
    {
      if k == |f| {
        assert Suffix(s, k) == f;
      } else if k < |f| {
        SuffixOfSuffix(s, f, k);
        NoExtensionOfAbsent(trie, Suffix(s, k), c);
      }
    }
  }

  /** Leaving the root along its missing `c`-edge: no suffix at all extends. */
  lemma FollowFailFromRoot(trie: set<string>, s: string, c: char, hi: int)
    requires NoExtension(trie, s, c, 0, hi)
    requires [c] !in trie
    ensures NoExtension(trie, s, c, -1, hi)
  {
    assert Suffix(s, 0) + [c] == [c];
  }

  /** What the walk's stopping point says about the suffixes of `s + [c]`. */
  lemma Extend(trie: set<string>, s: string, c: char, lo: int, hi: int)
    requires lo >= -1 && NoExtension(trie, s, c, lo, hi)
    ensures forall m: nat :: lo + 1 < m <= hi + 1 ==> Suffix(s + [c], m) !in trie
  {
    forall m: nat | lo + 1 < m <= hi + 1
      ensures Suffix(s + [c], m) !in trie
    {
      SuffixSnoc(s, c, m);
    }
  }

  /** After following the failure link, a node's output is its own patterns
      plus its failure target's: exactly the patterns ending its string. */
  lemma MergeOutput(trie: set<string>, added: seq<(string, int)>, s: string, g: string)
    requires forall e :: e in added ==> e.0 in trie
    requires FailTarget(trie, s, g)
    ensures Ending(added, s) == Own(added, s) + Ending(added, g)
  {
    forall e | e in added && e.0 != [] && IsSuffix(e.0, s)
      ensures e.1 in Own(added, s) + Ending(added, g)
    {
      if e.0 != s {
        assert Suffix(s, |e.0|) == e.0;
        ShorterSuffix(e.0, g, s);
      }
    }
    forall e | e in added && e.0 != [] && IsSuffix(e.0, g)
      ensures e.1 in Ending(added, s)
    {
      SuffixTrans(e.0, g, s);
    }
  }

  /** Reading one more character adds exactly the patterns that end at it,
      and those are the patterns ending the string of the new current node. */
  lemma FoundSnoc(trie: set<string>, added: seq<(string, int)>, s: string, c: char, f: string)
    requires forall e :: e in added ==> e.0 in trie
    requires LongestIn(trie, s + [c], f)
    ensures Found(added, s + [c]) == Found(added, s) + Ending(added, f)
  {
    forall e | e in added && e.0 != []
      ensures Contains(s + [c], e.0) <==> Contains(s, e.0) || IsSuffix(e.0, f)
    {
      ContainsSnoc(s, c, e.0);
      if IsSuffix(e.0, s + [c]) {
        assert Suffix(s + [c], |e.0|) == e.0;
        ShorterSuffix(e.0, f, s + [c]);
      }
      if IsSuffix(e.0, f) {
        SuffixTrans(e.0, f, s + [c]);
      }
    }
  }

  /** `word` and `idx` are inverse: each node has one string and each string
      of the trie one node. */
  ghost predicate Indexed(word: seq<string>, idx: map<string, nat>)
  {
    (forall i :: 0 <= i < |word| ==> word[i] in idx && idx[word[i]] == i) &&
    (forall s :: s in idx ==> idx[s] < |word| && word[idx[s]] == s)
  }

  /** Node i has a `c`-edge exactly when its string followed by `c` is in the
      trie, and the edge leads to that string's node. */
  ghost predicate Edges(children: seq<map<char, int>>, word: seq<string>, idx: map<string, nat>)
    requires |children| == |word|
  {
    (forall i, c :: 0 <= i < |children| ==> (c in children[i] <==> word[i] + [c] in idx)) &&
    (forall i, c :: 0 <= i < |children| && c in children[i] ==> children[i][c] == idx[word[i] + [c]])
  }

  /** The arena is the trie of the strings idx's keys, rooted at node 0. */
  ghost predicate IsTrie(children: seq<map<char, int>>, word: seq<string>, idx: map<string, nat>)
  {
    |children| == |word| >= 1 && word[0] == [] &&
    Indexed(word, idx) && PrefixClosed(idx.Keys) && Edges(children, word, idx)
  }

  /** Creating the `c`-child of `node` keeps the arena a trie. */
  lemma GrowTrie(children: seq<map<char, int>>, word: seq<string>, idx: map<string, nat>, node: nat, c: char)
    requires IsTrie(children, word, idx)
    requires node < |children| && c !in children[node]
    ensures var n := |children|;
            var w := word[node] + [c];
            w !in idx &&
            IsTrie(children[node := children[node][c := n]] + [map[]], word + [w], idx[w := n])
  {
    var n := |children|;
    var w := word[node] + [c];
    var children', word', idx' := children[node := children[node][c := n]] + [map[]], word + [w], idx[w := n];
    assert w !in idx;
    assert w[..|w| - 1] == word[node];
    NoExtensionsOfAbsent(idx.Keys, w);
    assert Indexed(word', idx');
    forall t, k | t in idx'.Keys && 0 <= k <= |t|
      ensures t[..k] in idx'
    {
      if t == w && k < |w| {
        assert t[..k] == word[node][..k];
      } else if t == w {
        assert t[..k] == w;
      }
    }
    forall i, d | 0 <= i < |children'| && word'[i] + [d] == w
      ensures i == node && d == c
    {
      assert word'[i] == (word'[i] + [d])[..|word'[i]|];
      assert word'[i] == word[node];
    }
    forall i, d | 0 <= i < |children'|
      ensures d in children'[i] <==> word'[i] + [d] in idx'
      ensures d in children'[i] ==> children'[i][d] == idx'[word'[i] + [d]]
    {
      if i == n {
        assert word'[i] + [d] != w;
      }
    }
  }

  /** Recording a pattern adds its index to that pattern's string only. */
  lemma OwnSnoc(added: seq<(string, int)>, p: string, k: int)
    ensures forall s :: Own(added + [(p, k)], s) == Own(added, s) + (if s == p then {k} else {})
  {
  }

  /** No string of a prefix-closed trie starts with an absent string. */
  lemma NoExtensionsOfAbsent(trie: set<string>, w: string)
    requires PrefixClosed(trie) && w !in trie
    ensures forall d :: w + [d] !in trie
  {
    forall d ensures w + [d] !in trie {
      NoExtensionOfAbsent(trie, w, d);
    }
  }

  /** Node x holds only the indices of the patterns spelled exactly by it. */
  ghost predicate FreshAt(output: seq<seq<int>>, word: seq<string>, added: seq<(string, int)>, x: int)
    requires 0 <= x < |output| == |word|
  {
    Elems(output[x]) == Own(added, word[x])
  }

  /** Node x has its final failure link and output. */
  ghost predicate LinkedAt(fail: seq<int>, output: seq<seq<int>>, word: seq<string>,
                           idx: map<string, nat>, added: seq<(string, int)>, x: int)
    requires |fail| == |output| == |word| && 0 <= x < |word|
  {
    0 <= fail[x] < |word| &&
    FailTarget(idx.Keys, word[x], word[fail[x]]) &&
    Elems(output[x]) == Ending(added, word[x])
  }

  /** The arena is a trie holding every added pattern, the root has no
      failure link and holds the empty pattern's indices, and every other node
      is either in its pre-link or in its linked state. */
  ghost predicate Arena(children: seq<map<char, int>>, fail: seq<int>, output: seq<seq<int>>,
                        word: seq<string>, idx: map<string, nat>, added: seq<(string, int)>, linked: bool)
  {
    IsTrie(children, word, idx) && (forall e :: e in added ==> e.0 in idx) &&
    |fail| == |output| == |children| &&
    fail[0] == -1 && FreshAt(output, word, added, 0) &&
    (linked ==> forall x :: 0 < x < |children| ==> LinkedAt(fail, output, word, idx, added, x)) &&
    (!linked ==> forall x :: 0 < x < |children| ==> FreshAt(output, word, added, x))
  }

  /** Creating an empty `c`-child of `node` keeps a pre-link arena valid. */
  lemma GrowArena(children: seq<map<char, int>>, fail: seq<int>, output: seq<seq<int>>,
                  word: seq<string>, idx: map<string, nat>, added: seq<(string, int)>, node: nat, c: char,
                  p: string)
    requires Arena(children, fail, output, word, idx, added, false)
    requires node < |children| && c !in children[node] && word[node] + [c] <= p
    ensures var n := |children|;
            var w := word[node] + [c];
            w !in idx &&
            Arena(children[node := children[node][c := n]] + [map[]], fail + [-1], output + [[]],
                  word + [w], idx[w := n], added, false) &&
            Grown(Snapshot(children, fail, output, word, idx),
                  Snapshot(children[node := children[node][c := n]] + [map[]], fail + [-1], output + [[]],
                           word + [w], idx[w := n]), p)
  {
    var n := |children|;
    var w := word[node] + [c];
    GrowTrie(children, word, idx, node, c);
    assert Own(added, w) == {};
    var output', word' := output + [[]], word + [w];
    forall x | 0 <= x < |output'|
      ensures FreshAt(output', word', added, x)
    {
      if x < n {
        assert FreshAt(output, word, added, x);
      } else {
        assert Elems(output'[x]) == {};
      }
    }
  }

  /** Appending `index` to the output of the node of `p` records the pattern. */
  lemma RecordPattern(children: seq<map<char, int>>, fail: seq<int>, output: seq<seq<int>>,
                      word: seq<string>, idx: map<string, nat>, added: seq<(string, int)>,
                      p: string, index: int)
    requires Arena(children, fail, output, word, idx, added, false)
    requires p in idx
    ensures Arena(children, fail, output[idx[p] := output[idx[p]] + [index]], word, idx,
                  added + [(p, index)], false)
  {
    var t := idx[p];
    var output', added' := output[t := output[t] + [index]], added + [(p, index)];
    OwnSnoc(added, p, index);
    forall x | 0 <= x < |output'|
      ensures FreshAt(output', word, added', x)
    {
      assert FreshAt(output, word, added, x);
      if x == t {
        assert Elems(output'[x]) == Elems(output[x]) + {index};
      }
    }
  }

  /** A string has at most one failure target. */
  lemma FailTargetUnique(trie: set<string>, s: string, f: string, g: string)
    requires FailTarget(trie, s, f) && FailTarget(trie, s, g)
    ensures f == g
  {
    assert |f| < |g| ==> Suffix(s, |g|) == g;
    assert |g| < |f| ==> Suffix(s, |f|) == f;
    assert |f| == |g| ==> f == s[|s| - |f|..] == g;
  }

  /** What the built links look like: each node but the root fails to a
      strictly shallower node, a child of the root fails to the root, and each
      node's output holds every pattern that ends its string. */
  lemma LinkedShape(children: seq<map<char, int>>, fail: seq<int>, output: seq<seq<int>>,
                    word: seq<string>, idx: map<string, nat>, added: seq<(string, int)>, x: int)
    requires Arena(children, fail, output, word, idx, added, true) && 0 < x < |children|
    ensures 0 <= fail[x] < |children| && |word[fail[x]]| < |word[x]|
    ensures |word[x]| == 1 ==> fail[x] == 0
    ensures forall e :: e in added && e.0 != [] && IsSuffix(e.0, word[x]) ==> e.1 in output[x]
  {
    assert LinkedAt(fail, output, word, idx, added, x);
    if |word[x]| == 1 {
      assert word[fail[x]] == [] == word[0];
    }
    forall e | e in added && e.0 != [] && IsSuffix(e.0, word[x])
      ensures e.1 in output[x]
    {
      assert e.1 in Ending(added, word[x]);
    }
  }

  /** The real and ghost fields of an automaton, as one value. */
  datatype Snapshot = Snapshot(children: seq<map<char, int>>, fail: seq<int>, output: seq<seq<int>>,
                               word: seq<string>, idx: map<string, nat>)

  /** `b` arises from `a` by adding nodes for prefixes of `p`: old nodes keep
      their strings, failure links and outputs, nodes off the path of `p`
      keep their children, and new nodes start with an empty output. */
  ghost predicate Grown(a: Snapshot, b: Snapshot, p: string)
  {
    |a.word| == |a.children| == |a.fail| == |a.output| &&
    |b.word| == |b.children| == |b.fail| == |b.output| &&
    |b.children| >= |a.children| && b.word[..|a.children|] == a.word &&
    (forall s :: s in a.idx ==> s in b.idx && b.idx[s] == a.idx[s]) &&
    (forall s :: s in b.idx ==> s in a.idx || s <= p) &&
    (forall j :: 0 <= j < |a.children| ==> b.fail[j] == a.fail[j] && b.output[j] == a.output[j]) &&
    (forall j :: 0 <= j < |a.children| && !(a.word[j] <= p) ==> b.children[j] == a.children[j]) &&
    (forall j :: |a.children| <= j < |b.children| ==> b.output[j] == [])
  }

  lemma GrownTrans(a: Snapshot, b: Snapshot, c: Snapshot, p: string)
    requires Grown(a, b, p) && Grown(b, c, p)
    ensures Grown(a, c, p)
  {
    assert c.word[..|a.children|] == c.word[..|b.children|][..|a.children|];
  }

  /** The node one character up from node x. */
  ghost function ParentOf(word: seq<string>, idx: map<string, nat>, x: int): (p: nat)
    requires Indexed(word, idx) && PrefixClosed(idx.Keys)
    requires 0 <= x < |word| && word[x] != []
    ensures p < |word| && word[p] == word[x][..|word[x]| - 1]
    ensures word[x] == word[p] + [word[x][|word[x]| - 1]]
  {
    idx[word[x][..|word[x]| - 1]]
  }

  /** Every node has a parent in the queue order, so a set of nodes holding
      the root and closed under "parent reached, child reached" (down to depth
      `d`) holds every node down to depth `d`. */
  lemma {:induction false} Reach(word: seq<string>, idx: map<string, nat>, order: seq<int>, d: nat, y: int)
    requires Indexed(word, idx) && PrefixClosed(idx.Keys) && |word| >= 1 && word[0] == []
    requires 0 in order
    requires forall x {:trigger ParentOf(word, idx, x)} :: 0 < x < |word| && word[x] != [] && |word[x]| <= d && ParentOf(word, idx, x) in order
                         ==> x in order
    requires 0 <= y < |word| && |word[y]| <= d
    ensures y in order
    decreases |word[y]|
  {
    if y != 0 {
      var p := ParentOf(word, idx, y);
      Reach(word, idx, order, d, p);
    }
  }

  /** Every node but the root: the nodes with a non-empty string. */
  ghost function NonRoot(word: seq<string>): set<int>
  {
    set x | 0 <= x < |word| && word[x] != []
  }

  /** The arena in the middle of build_fail_links: the nodes of `unseen`
      still hold their pre-link outputs and every other node is linked. */
  ghost predicate Partial(children: seq<map<char, int>>, fail: seq<int>, output: seq<seq<int>>,
                          word: seq<string>, idx: map<string, nat>, added: seq<(string, int)>, unseen: set<int>)
  {
    IsTrie(children, word, idx) && (forall e :: e in added ==> e.0 in idx) &&
    |fail| == |output| == |children| &&
    fail[0] == -1 && FreshAt(output, word, added, 0) &&
    (forall x :: 0 < x < |children| && x in unseen ==> FreshAt(output, word, added, x)) &&
    (forall x :: 0 < x < |children| && x !in unseen ==> LinkedAt(fail, output, word, idx, added, x))
  }

  lemma PartialOfUnlinked(children: seq<map<char, int>>, fail: seq<int>, output: seq<seq<int>>,
                          word: seq<string>, idx: map<string, nat>, added: seq<(string, int)>)
    requires Arena(children, fail, output, word, idx, added, false)
    ensures Partial(children, fail, output, word, idx, added, NonRoot(word))
  {
  }

  lemma PartialOfLinked(children: seq<map<char, int>>, fail: seq<int>, output: seq<seq<int>>,
                        word: seq<string>, idx: map<string, nat>, added: seq<(string, int)>)
    ensures Arena(children, fail, output, word, idx, added, true) <==>
            Partial(children, fail, output, word, idx, added, {})
  {
  }

  /** Once no node is unseen, all nodes are linked. */
  lemma PartialDone(children: seq<map<char, int>>, fail: seq<int>, output: seq<seq<int>>,
                    word: seq<string>, idx: map<string, nat>, added: seq<(string, int)>, unseen: set<int>)
    requires Partial(children, fail, output, word, idx, added, unseen)
    requires forall x :: 0 <= x < |word| ==> x !in unseen
    ensures Partial(children, fail, output, word, idx, added, {})
  {
  }

  /** No non-empty pattern ends the empty string. */
  lemma EndingEmpty(added: seq<(string, int)>)
    ensures Ending(added, []) == {}
  {
  }

  lemma ElemsAppend(a: seq<int>, b: seq<int>)
    ensures Elems(a + b) == Elems(a) + Elems(b)
  {
    forall x | x in a + b ensures x in a || x in b {
      var i :| 0 <= i < |a + b| && (a + b)[i] == x;
      if i >= |a| {
        assert b[i - |a|] == x;
      }
    }
  }

  /** Linking `y`, the node of `s + [c]`, to the root, once the walk along
      the failure links found no suffix of `s` that extends by `c`. */
  lemma LinkToRoot(children: seq<map<char, int>>, fail: seq<int>, output: seq<seq<int>>,
                   word: seq<string>, idx: map<string, nat>, added: seq<(string, int)>, unseen: set<int>,
                   s: string, c: char, y: int)
    requires Partial(children, fail, output, word, idx, added, unseen)
    requires 0 < y < |children| && y in unseen && word[y] == s + [c]
    requires NoExtension(idx.Keys, s, c, -1, |s| - 1)
    ensures Partial(children, fail[y := 0], output, word, idx, added, unseen - {y})
  {
    Extend(idx.Keys, s, c, -1, |s| - 1);
    assert FailTarget(idx.Keys, word[y], word[0]);
    MergeOutput(idx.Keys, added, word[y], []);
    EndingEmpty(added);
    assert FreshAt(output, word, added, y);
    var fail' := fail[y := 0];
    forall x | 0 < x < |children| && x !in unseen - {y}
      ensures LinkedAt(fail', output, word, idx, added, x)
    {
      if x != y {
        assert LinkedAt(fail, output, word, idx, added, x);
      }
    }
  }

  /** Linking `y`, the node of `s + [c]`, to the `c`-child of `f`, the
      longest proper suffix of `s` that extends by `c`, and merging that
      child's output into `y`'s. */
  lemma LinkToNode(children: seq<map<char, int>>, fail: seq<int>, output: seq<seq<int>>,
                   word: seq<string>, idx: map<string, nat>, added: seq<(string, int)>, unseen: set<int>,
                   s: string, c: char, y: int, f: int)
    requires Partial(children, fail, output, word, idx, added, unseen)
    requires 0 < y < |children| && y in unseen && word[y] == s + [c]
    requires 0 <= f < |children| && c in children[f] && children[f][c] !in unseen
    requires IsSuffix(word[f], s) && |word[f]| <= |s| - 1
    requires NoExtension(idx.Keys, s, c, |word[f]|, |s| - 1)
    ensures var t := children[f][c];
            Partial(children, fail[y := t], output[y := output[y] + output[t]], word, idx, added, unseen - {y})
  {
    var t := children[f][c];
    assert word[t] == word[f] + [c];
    Extend(idx.Keys, s, c, |word[f]|, |s| - 1);
    assert (s + [c])[|s + [c]| - |word[t]|..] == s[|s| - |word[f]|..] + [c];
    assert FailTarget(idx.Keys, word[y], word[t]);
    MergeOutput(idx.Keys, added, word[y], word[t]);
    assert FreshAt(output, word, added, y);
    assert t != 0 && t != y;
    assert LinkedAt(fail, output, word, idx, added, t);
    ElemsAppend(output[y], output[t]);
    var fail', output' := fail[y := t], output[y := output[y] + output[t]];
    assert LinkedAt(fail', output', word, idx, added, y);
    forall x | 0 < x < |children| && x !in unseen - {y}
      ensures LinkedAt(fail', output', word, idx, added, x)
    {
      if x != y {
        assert LinkedAt(fail, output, word, idx, added, x);
      }
    }
    forall x | 0 < x < |children| && x in unseen - {y}
      ensures FreshAt(output', word, added, x)
    {
      assert FreshAt(output, word, added, x);
    }
  }

  /** The `c`-child of node i is the node of i's string followed by `c`. */
  lemma ChildOf(children: seq<map<char, int>>, word: seq<string>, idx: map<string, nat>, i: int, c: char)
    requires IsTrie(children, word, idx) && 0 <= i < |children| && c in children[i]
    ensures 0 < children[i][c] < |word| && word[children[i][c]] == word[i] + [c]
  {
    assert word[i] + [c] in idx;
  }

  /** Every entry of the queue order is a node. */
  ghost predicate InRange<T>(nodes: seq<T>, order: seq<int>)
  {
    forall i :: 0 <= i < |order| ==> 0 <= order[i] < |nodes|
  }

  /** No node is queued twice, and the order goes by non-decreasing depth. */
  ghost predicate Ordered(word: seq<string>, order: seq<int>)
    requires InRange(word, order)
  {
    (forall i, j :: 0 <= i < j < |order| ==> order[i] != order[j]) &&
    (forall i, j :: 0 <= i < j < |order| ==> |word[order[i]]| <= |word[order[j]]|)
  }

  /** The nodes still waiting are at most one level below the current one. */
  ghost predicate Window(word: seq<string>, order: seq<int>, head: int)
    requires InRange(word, order) && 1 <= head <= |order|
  {
    forall j :: head <= j < |order| ==> |word[order[j]]| <= |word[order[head - 1]]| + 1
  }

  /** Every queued node but the root was queued as the child of a node
      already taken out. */
  ghost predicate Sound(word: seq<string>, idx: map<string, nat>, order: seq<int>, head: int)
    requires Indexed(word, idx) && PrefixClosed(idx.Keys)
    requires InRange(word, order) && 1 <= head <= |order|
  {
    forall i :: 0 < i < |order| ==> word[order[i]] != [] && ParentOf(word, idx, order[i]) in order[..head]
  }

  /** Every child of a node taken out has been queued, except the children
      of the current node along the characters of `rest`. */
  ghost predicate Complete(word: seq<string>, idx: map<string, nat>, order: seq<int>, head: int, rest: set<char>)
    requires Indexed(word, idx) && PrefixClosed(idx.Keys)
    requires 1 <= head <= |order|
  {
    forall x {:trigger ParentOf(word, idx, x)} :: 0 < x < |word| && word[x] != [] && ParentOf(word, idx, x) in order[..head] &&
                !(ParentOf(word, idx, x) == order[head - 1] && word[x][|word[x]| - 1] in rest)
                ==> x in order
  }

  /** The characters still to visit lead to children not yet queued. */
  ghost predicate Pending(children: seq<map<char, int>>, order: seq<int>, head: int, rest: set<char>)
    requires InRange(children, order) && 1 <= head <= |order|
  {
    forall ch :: ch in rest ==> ch in children[order[head - 1]] && children[order[head - 1]][ch] !in order
  }

  /** The breadth-first schedule of build_fail_links.  `order` lists the
      root and then every node in the order it entered the queue; the first
      `head` entries have been taken out, the last of them, `order[head-1]`,
      being the node whose children are being visited, with the characters of
      `rest` still to go. */
  ghost predicate Scheduled(children: seq<map<char, int>>, word: seq<string>, idx: map<string, nat>,
                            order: seq<int>, head: int, rest: set<char>)
  {
    IsTrie(children, word, idx) &&
    1 <= head <= |order| && order[0] == 0 && InRange(word, order) &&
    Ordered(word, order) && Window(word, order, head) && Sound(word, idx, order, head) &&
    Complete(word, idx, order, head, rest) && Pending(children, order, head, rest)
  }

  /** The schedule as the root-children loop begins: only the root is out. */
  lemma ScheduleStart(children: seq<map<char, int>>, word: seq<string>, idx: map<string, nat>)
    requires IsTrie(children, word, idx)
    ensures Scheduled(children, word, idx, [0], 1, children[0].Keys)
  {
    forall x | 0 < x < |word| && word[x] != [] && ParentOf(word, idx, x) in [0]
      ensures word[x][|word[x]| - 1] in children[0]
    {
      assert word[x] == word[0] + [word[x][|word[x]| - 1]];
    }
    forall ch | ch in children[0]
      ensures children[0][ch] != 0
    {
      ChildOf(children, word, idx, 0, ch);
    }
  }

  lemma PushOrdered(word: seq<string>, order: seq<int>, head: int, y: int)
    requires InRange(word, order) && 1 <= head <= |order|
    requires Ordered(word, order) && Window(word, order, head)
    requires 0 <= y < |word| && y !in order && |word[y]| == |word[order[head - 1]]| + 1
    ensures InRange(word, order + [y])
    ensures Ordered(word, order + [y]) && Window(word, order + [y], head)
  {
    var order' := order + [y];
    forall i, j | 0 <= i < j < |order'|
      ensures order'[i] != order'[j] && |word[order'[i]]| <= |word[order'[j]]|
    {
      if j == |order| {
        assert order[i] in order;
        if i < head - 1 {
          assert |word[order[i]]| <= |word[order[head - 1]]|;
        }
      }
    }
  }

  lemma PushSound(word: seq<string>, idx: map<string, nat>, order: seq<int>, head: int, y: int)
    requires Indexed(word, idx) && PrefixClosed(idx.Keys)
    requires InRange(word, order) && 1 <= head <= |order| && Sound(word, idx, order, head)
    requires 0 <= y < |word| && word[y] != [] && ParentOf(word, idx, y) == order[head - 1]
    ensures InRange(word, order + [y]) && Sound(word, idx, order + [y], head)
  {
    var order' := order + [y];
    assert order'[..head] == order[..head];
    assert order[head - 1] == order[..head][head - 1];
  }

  lemma PushComplete(word: seq<string>, idx: map<string, nat>, order: seq<int>, head: int, rest: set<char>,
                     c: char, y: int)
    requires Indexed(word, idx) && PrefixClosed(idx.Keys)
    requires 1 <= head <= |order| && Complete(word, idx, order, head, rest)
    requires 0 <= order[head - 1] < |word|
    requires 0 <= y < |word| && word[y] == word[order[head - 1]] + [c]
    ensures Complete(word, idx, order + [y], head, rest - {c})
  {
    var order' := order + [y];
    assert order'[..head] == order[..head];
    forall x | 0 < x < |word| && word[x] != [] && ParentOf(word, idx, x) == order[head - 1] &&
               word[x][|word[x]| - 1] == c
      ensures x == y
    {
      assert word[x] == word[y];
    }
  }

  lemma PushPending(children: seq<map<char, int>>, word: seq<string>, idx: map<string, nat>,
                    order: seq<int>, head: int, rest: set<char>, c: char)
    requires IsTrie(children, word, idx)
    requires InRange(children, order) && 1 <= head <= |order| && Pending(children, order, head, rest)
    requires c in rest
    ensures var y := children[order[head - 1]][c];
            InRange(children, order + [y]) && Pending(children, order + [y], head, rest - {c})
  {
    var cur := order[head - 1];
    var y := children[cur][c];
    assert y == idx[word[cur] + [c]] && y < |children|;
    forall ch | ch in rest - {c}
      ensures children[cur][ch] != y
    {
      assert word[children[cur][ch]] == word[cur] + [ch];
      assert (word[cur] + [ch])[|word[cur]|] == ch;
    }
  }

  /** Queueing the `c`-child of the current node. */
  lemma SchedulePush(children: seq<map<char, int>>, word: seq<string>, idx: map<string, nat>,
                     order: seq<int>, head: int, rest: set<char>, c: char)
    requires Scheduled(children, word, idx, order, head, rest) && c in rest
    ensures var y := children[order[head - 1]][c];
            0 < y < |word| && y !in order &&
            Scheduled(children, word, idx, order + [y], head, rest - {c})
  {
    var cur := order[head - 1];
    var y := children[cur][c];
    ChildOf(children, word, idx, cur, c);
    PushOrdered(word, order, head, y);
    PushSound(word, idx, order, head, y);
    PushComplete(word, idx, order, head, rest, c, y);
    PushPending(children, word, idx, order, head, rest, c);
  }

  lemma PopComplete(children: seq<map<char, int>>, word: seq<string>, idx: map<string, nat>,
                    order: seq<int>, head: int)
    requires IsTrie(children, word, idx)
    requires InRange(word, order) && 1 <= head < |order| && Complete(word, idx, order, head, {})
    ensures Complete(word, idx, order, head + 1, children[order[head]].Keys)
  {
    var cur := order[head];
    assert order[..head + 1] == order[..head] + [cur];
    forall x | 0 < x < |word| && word[x] != [] && ParentOf(word, idx, x) == cur
      ensures word[x][|word[x]| - 1] in children[cur]
    {
      assert word[x] == word[cur] + [word[x][|word[x]| - 1]];
    }
  }

  lemma PopPending(children: seq<map<char, int>>, word: seq<string>, idx: map<string, nat>,
                   order: seq<int>, head: int)
    requires IsTrie(children, word, idx)
    requires InRange(word, order) && 1 <= head < |order| && order[0] == 0
    requires Ordered(word, order) && Sound(word, idx, order, head)
    ensures Pending(children, order, head + 1, children[order[head]].Keys)
    ensures order[head] != 0
  {
    var cur := order[head];
    forall ch | ch in children[cur]
      ensures children[cur][ch] !in order
    {
      ChildOf(children, word, idx, cur, ch);
    }
  }

  lemma PopWindow(word: seq<string>, order: seq<int>, head: int)
    requires InRange(word, order) && 1 <= head < |order|
    requires Ordered(word, order) && Window(word, order, head)
    ensures Window(word, order, head + 1)
  {
    assert |word[order[head - 1]]| <= |word[order[head]]|;
  }

  lemma PopSound(word: seq<string>, idx: map<string, nat>, order: seq<int>, head: int)
    requires Indexed(word, idx) && PrefixClosed(idx.Keys)
    requires InRange(word, order) && 1 <= head < |order| && Sound(word, idx, order, head)
    ensures Sound(word, idx, order, head + 1)
  {
    forall i | 0 < i < |order|
      ensures ParentOf(word, idx, order[i]) in order[..head + 1]
    {
      var p := ParentOf(word, idx, order[i]);
      var m :| 0 <= m < head && order[..head][m] == p;
      assert order[..head + 1][m] == p;
    }
  }

  /** Taking the next node out of the queue. */
  lemma SchedulePop(children: seq<map<char, int>>, word: seq<string>, idx: map<string, nat>,
                    order: seq<int>, head: int)
    requires Scheduled(children, word, idx, order, head, {}) && head < |order|
    ensures Scheduled(children, word, idx, order, head + 1, children[order[head]].Keys)
    ensures order[head] != 0
  {
    PopComplete(children, word, idx, order, head);
    PopPending(children, word, idx, order, head);
    PopWindow(word, order, head);
    PopSound(word, idx, order, head);
  }

  /** Only the nodes in `nodes` have a failure link or an output other than
      in `fail0` and `output0`. */
  ghost predicate SlotsKept(fail0: seq<int>, output0: seq<seq<int>>, fail: seq<int>, output: seq<seq<int>>,
                            nodes: set<int>)
  {
    |fail| == |fail0| && |output| == |output0| &&
    forall x :: 0 <= x < |fail0| && 0 <= x < |output0| && x !in nodes ==> fail[x] == fail0[x] && output[x] == output0[x]
  }

  /** The children of `m` under the characters outside `rest` fail to the
      root. */
  ghost predicate LinkedToRoot(m: map<char, int>, fail: seq<int>, rest: set<char>)
  {
    forall ch :: ch in m && ch !in rest ==> 0 <= m[ch] < |fail| && fail[m[ch]] == 0
  }

  /** Updating the slots of `y` alone is a change confined to `y`. */
  lemma SlotsKeptOfUpdate(fail0: seq<int>, output0: seq<seq<int>>, fail: seq<int>, output: seq<seq<int>>, y: int)
    requires |fail| == |fail0| && |output| == |output0| && 0 <= y < |fail| && 0 <= y < |output|
    requires fail == fail0[y := fail[y]] && output == output0[y := output[y]]
    ensures SlotsKept(fail0, output0, fail, output, {y})
  {
  }

  /** A change confined to `y`, one of `nodes`, after one confined to
      `nodes` is still confined to `nodes`. */
  lemma SlotsKeptTrans(fail0: seq<int>, output0: seq<seq<int>>, fail1: seq<int>, output1: seq<seq<int>>,
                       fail2: seq<int>, output2: seq<seq<int>>, nodes: set<int>, y: int)
    requires SlotsKept(fail0, output0, fail1, output1, nodes) && SlotsKept(fail1, output1, fail2, output2, {y})
    requires y in nodes
    ensures SlotsKept(fail0, output0, fail2, output2, nodes)
  {
  }

  /** `queue` is `queue0` followed by exactly the nodes of the child map
      `kids`: each child is among the new entries and each new entry is a
      child. */
  ghost predicate QueuedChildren(queue0: seq<int>, queue: seq<int>, kids: map<char, int>)
  {
    |queue0| <= |queue| && queue[..|queue0|] == queue0 &&
    (forall ch :: ch in kids ==> kids[ch] in queue[|queue0|..]) &&
    (forall y :: y in queue[|queue0|..] ==> y in kids.Values)
  }

  /** Bookkeeping of the loop over a node's child map `m`: the nodes `kids`
      of the characters outside `rest` were appended to the queue and to the
      order. */
  ghost predicate Visited(queue0: seq<int>, queue: seq<int>, order0: seq<int>, order: seq<int>,
                          kids: seq<int>, m: map<char, int>, rest: set<char>)
  {
    queue == queue0 + kids && order == order0 + kids &&
    (forall ch :: ch in m && ch !in rest ==> m[ch] in kids) &&
    (forall y :: y in kids ==> y in m.Values)
  }

  lemma VisitedStep(queue0: seq<int>, queue: seq<int>, order0: seq<int>, order: seq<int>,
                    kids: seq<int>, m: map<char, int>, rest: set<char>, c: char)
    requires Visited(queue0, queue, order0, order, kids, m, rest) && c in rest && c in m
    ensures Visited(queue0, queue + [m[c]], order0, order + [m[c]], kids + [m[c]], m, rest - {c})
  {
  }

  lemma VisitedAll(queue0: seq<int>, queue: seq<int>, order0: seq<int>, order: seq<int>,
                   kids: seq<int>, m: map<char, int>, head: int)
    requires Visited(queue0, queue, order0, order, kids, m, {}) && 0 <= head <= |order0|
    ensures order[..head] == order0[..head] && QueuedChildren(queue0, queue, m)
  {
    assert queue[|queue0|..] == kids;
  }

  /** The invariant of the loop over the children of `current`, entered
      with queue `queue0`, order `order0`, `unseen0` unseen nodes and slots
      `fail0`, `output0`.  It only wraps ChildLoopBody: behind a single call
      the verifier proves the conjunction as one goal instead of conjunct by
      conjunct at every step, which keeps the loop's proof small. */
  ghost predicate ChildLoop(children: seq<map<char, int>>, fail: seq<int>, output: seq<seq<int>>,
                            word: seq<string>, idx: map<string, nat>, added: seq<(string, int)>, unseen: set<int>,
                            order: seq<int>, head: int, rest: set<char>, queue: seq<int>, current: int,
                            queue0: seq<int>, order0: seq<int>, unseen0: set<int>, kids: seq<int>,
                            fail0: seq<int>, output0: seq<seq<int>>)
    requires 0 <= current < |children|
  {
    ChildLoopBody(children, fail, output, word, idx, added, unseen, order, head, rest, queue, current,
                  queue0, order0, unseen0, kids, fail0, output0)
  }

  ghost predicate ChildLoopBody(children: seq<map<char, int>>, fail: seq<int>, output: seq<seq<int>>,
                                word: seq<string>, idx: map<string, nat>, added: seq<(string, int)>, unseen: set<int>,
                                order: seq<int>, head: int, rest: set<char>, queue: seq<int>, current: int,
                                queue0: seq<int>, order0: seq<int>, unseen0: set<int>, kids: seq<int>,
                                fail0: seq<int>, output0: seq<seq<int>>)
    requires 0 <= current < |children|
  {
    Partial(children, fail, output, word, idx, added, unseen) &&
    Scheduled(children, word, idx, order, head, rest) && Tracks(order, unseen, |word|) &&
    queue == order[head..] && current == order[head - 1] &&
    2 * |unseen| + |queue| <= 2 * |unseen0| + |queue0| &&
    Visited(queue0, queue, order0, order, kids, children[current], rest) &&
    SlotsKept(fail0, output0, fail, output, children[current].Values)
  }

  /** `unseen` holds exactly the nodes not yet queued. */
  ghost predicate Tracks(order: seq<int>, unseen: set<int>, n: int)
  {
    forall x :: x in unseen <==> 0 <= x < n && x !in order
  }

  /** Appending `y` to the queue and to the order, and crossing it off. */
  lemma Enqueue(order: seq<int>, unseen: set<int>, queue: seq<int>, head: int, n: int, y: int)
    requires Tracks(order, unseen, n) && 0 <= head <= |order| && queue == order[head..]
    requires 0 <= y < n && y !in order
    ensures Tracks(order + [y], unseen - {y}, n) && queue + [y] == (order + [y])[head..]
    ensures |unseen - {y}| == |unseen| - 1
  {
    assert y in unseen;
    assert unseen == (unseen - {y}) + {y};
  }

  /** Taking the first node off the queue. */
  lemma Dequeue(order: seq<int>, queue: seq<int>, head: int)
    requires 0 <= head < |order| && queue == order[head..]
    ensures queue != [] && queue[0] == order[head] && queue[1..] == order[head + 1..]
  {
  }

  /** Once a node is out of the queue, every node of its depth or less has
      been queued. */
  lemma ScheduleShallow(children: seq<map<char, int>>, word: seq<string>, idx: map<string, nat>,
                        order: seq<int>, head: int, rest: set<char>, y: int)
    requires Scheduled(children, word, idx, order, head, rest)
    requires 0 <= y < |word| && |word[y]| <= |word[order[head - 1]]|
    ensures y in order
  {
    var cur := order[head - 1];
    var d := |word[cur]|;
    forall x | 0 < x < |word| && word[x] != [] && |word[x]| <= d && ParentOf(word, idx, x) in order
      ensures x in order
    {
      var p := ParentOf(word, idx, x);
      var j :| 0 <= j < |order| && order[j] == p;
      assert order[..head][j] == p;
    }
    Reach(word, idx, order, d, y);
  }

  /** The nodes not yet queued all lie deeper than the current node. */
  lemma UnseenDeeper(children: seq<map<char, int>>, word: seq<string>, idx: map<string, nat>,
                     order: seq<int>, head: int, rest: set<char>, unseen: set<int>)
    requires Scheduled(children, word, idx, order, head, rest) && Tracks(order, unseen, |word|)
    ensures forall x :: 0 <= x < |word| && x in unseen ==> |word[order[head - 1]]| < |word[x]|
  {
    forall x | 0 <= x < |word| && x in unseen
      ensures |word[order[head - 1]]| < |word[x]|
    {
      if |word[x]| <= |word[order[head - 1]]| {
        ScheduleShallow(children, word, idx, order, head, rest, x);
      }
    }
  }

  /** When the queue runs empty, every node has been queued. */
  lemma ScheduleDone(children: seq<map<char, int>>, word: seq<string>, idx: map<string, nat>,
                     order: seq<int>, y: int)
    requires Scheduled(children, word, idx, order, |order|, {})
    requires 0 <= y < |word|
    ensures y in order
  {
    assert order[..|order|] == order;
    Reach(word, idx, order, |word[y]|, y);
  }

  /** When the queue runs dry, no node is left unseen. */
  lemma Drained(children: seq<map<char, int>>, word: seq<string>, idx: map<string, nat>,
                order: seq<int>, head: int, unseen: set<int>)
    requires Scheduled(children, word, idx, order, head, {}) && Tracks(order, unseen, |word|)
    requires order[head..] == []
    ensures forall x :: 0 <= x < |word| ==> x !in unseen
  {
    forall x | 0 <= x < |word|
      ensures x !in unseen
    {
      ScheduleDone(children, word, idx, order, x);
    }
  }
}
