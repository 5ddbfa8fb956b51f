/** The Aho-Corasick automaton of data_matcher.py (classes AhoCorasickNode and
    AhoCorasick), as an arena of nodes addressed by index.  Slot `i` of
    `children`, `fail` and `output` together form one AhoCorasickNode; slot 0
    is the root.  A failure link of -1 is Python's `None`, which only the root
    keeps once the links are built. */
module AhoCorasick {
  import opened Text
  import opened AutomatonSpec

  class Automaton {
    /** children[i]: AhoCorasickNode.children of node i. */
    var children: seq<map<char, int>>
    /** fail[i]: AhoCorasickNode.fail of node i; -1 stands for None. */
    var fail: seq<int>
    /** output[i]: AhoCorasickNode.output of node i. */
    var output: seq<seq<int>>

    /** word[i]: the string spelled from the root to node i. */
    ghost var word: seq<string>
    /** The inverse of word: the trie's strings and their nodes. */
    ghost var idx: map<string, nat>
    /** Every (pattern, index) pair given to AddPattern, in order. */
    ghost var added: seq<(string, int)>
    /** Whether BuildFailLinks has run. */
    ghost var linked: bool

    ghost predicate Valid()
      reads this
    {
      Arena(children, fail, output, word, idx, added, linked)
    }

    constructor ()
      ensures Valid() && !linked
      ensures added == [] && idx.Keys == {[]}
    {
      children := [map[]];
      fail := [-1];
      output := [[]];
      word := [[]];
      idx := map[[] := 0];
      added := [];
      linked := false;
    }

    /** The arena's state, as a value. */
    ghost function Now(): Snapshot
      reads this
    {
      Snapshot(children, fail, output, word, idx)
    }

    /** `node.children[char] = AhoCorasickNode()`: a fresh node for the string
        of `node` followed by `c`. */
    method AddChild(node: nat, c: char, ghost pattern: string) returns (n: nat)
      requires Valid() && !linked
      requires node < |children| && c !in children[node] && word[node] + [c] <= pattern
      modifies this
      ensures Valid() && !linked && added == old(added)
      ensures Grown(old(Now()), Now(), pattern)
      ensures n == old(|children|) && n < |word| && word[n] == old(word[node]) + [c]
      ensures children[node] == old(children[node])[c := n]
      ensures |children| == n + 1 && children[n] == map[] && fail[n] == -1 && output[n] == []
      ensures forall j :: 0 <= j < n && j != node ==> children[j] == old(children[j])
    {
      var w := word[node] + [c];
      n := |children|;
      var children', fail', output' := children[node := children[node][c := n]] + [map[]], fail + [-1], output + [[]];
      ghost var word', idx' := word + [w], idx[w := n];
      GrowArena(children, fail, output, word, idx, added, node, c, pattern);
      children, fail, output, word, idx := children', fail', output', word', idx';
    }

    /** One step of add_pattern's loop: `node.children[char]`, created first
        when it is missing. */
    method Descend(ghost start: Snapshot, node: nat, c: char, ghost pattern: string) returns (next: nat)
      requires Valid() && !linked && Grown(start, Now(), pattern)
      requires node < |children| && word[node] + [c] <= pattern
      modifies this
      ensures Valid() && !linked && added == old(added)
      ensures Grown(start, Now(), pattern)
      ensures next < |children| && word[next] == old(word[node]) + [c]
      ensures c in old(children[node]) ==> next == old(children[node][c]) && Now() == old(Now())
      ensures c !in old(children[node]) ==>
                next == old(|children|) && |children| == old(|children|) + 1 &&
                children[node] == old(children[node])[c := next] && children[next] == map[]
    {
      if c !in children[node] {
        ghost var before := Now();
        next := AddChild(node, c, pattern);
        GrownTrans(start, before, Now(), pattern);
      } else {
        next := children[node][c];
      }
    }

    /** The loop of add_pattern: walk down from the root along `pattern`,
        creating the children that are missing, and return the node reached. */
    method InsertPath(pattern: string) returns (node: nat)
      requires Valid() && !linked
      modifies this
      ensures Valid() && !linked && added == old(added)
      ensures node < |children| && word[node] == pattern
      ensures forall k :: 0 <= k <= |pattern| ==> pattern[..k] in idx
      ensures Grown(old(Now()), Now(), pattern)
    {
      ghost var start := Now();
      node := 0;
      var i := 0;
      while i < |pattern|
        invariant 0 <= i <= |pattern|
        invariant Valid() && !linked && added == old(added)
        invariant 0 <= node < |children| && word[node] == pattern[..i]
        invariant Grown(start, Now(), pattern)
      {
        var c := pattern[i];
        PrefixStep(pattern, i);
        node := Descend(start, node, c, pattern);
        i := i + 1;
      }
      assert pattern[..|pattern|] == pattern;
      assert pattern in idx;
    }

    /** add_pattern: walk down from the root creating missing children, then
        append `index` to the terminal node's output. */
    method AddPattern(pattern: string, index: int)
      requires Valid() && !linked
      modifies this
      ensures Valid() && !linked
      ensures added == old(added) + [(pattern, index)]
      ensures forall k :: 0 <= k <= |pattern| ==> pattern[..k] in idx
      ensures forall s :: s in old(idx) ==> s in idx && idx[s] == old(idx[s])
      ensures forall s :: s in idx ==> s in old(idx) || s <= pattern
      ensures |children| >= old(|children|) && word[..old(|children|)] == old(word)
      ensures forall j :: 0 <= j < old(|children|) ==> fail[j] == old(fail[j])
      ensures forall j :: 0 <= j < old(|children|) && !(word[j] <= pattern) ==> children[j] == old(children[j])
      ensures forall j :: 0 <= j < old(|children|) && word[j] != pattern ==> output[j] == old(output[j])
      ensures var t := idx[pattern];
              output[t] == (if t < old(|children|) then old(output[t]) else []) + [index]
    {
      var node := InsertPath(pattern);
      RecordPattern(children, fail, output, word, idx, added, pattern, index);
      output := output[node := output[node] + [index]];
      added := added + [(pattern, index)];
    }

    /** The walk along failure links shared by build_fail_links and search:
        from `f0`, follow `fail` until a node with a `c`-edge or past the
        root.  Started where no suffix of `s` longer than `f0`'s string (up to
        length `hi`) extends by `c`, it stops at the longest suffix that does,
        or at -1 when none does. */
    method FailWalk(f0: int, c: char, ghost s: string, ghost hi: int, ghost unseen: set<int>) returns (f: int)
      requires Partial(children, fail, output, word, idx, added, unseen)
      requires forall x :: 0 <= x < |word| && x in unseen ==> hi < |word[x]|
      requires f0 == -1 ==> NoExtension(idx.Keys, s, c, -1, hi)
      requires f0 != -1 ==> 0 <= f0 < |word| && IsSuffix(word[f0], s) && |word[f0]| <= hi &&
                            NoExtension(idx.Keys, s, c, |word[f0]|, hi)
      ensures f == -1 ==> NoExtension(idx.Keys, s, c, -1, hi)
      ensures f != -1 ==> 0 <= f < |word| && c in children[f] && IsSuffix(word[f], s) && |word[f]| <= hi &&
                          NoExtension(idx.Keys, s, c, |word[f]|, hi)
    {
      f := f0;
      while f != -1 && c !in children[f]
        invariant f == -1 ==> NoExtension(idx.Keys, s, c, -1, hi)
        invariant f != -1 ==> 0 <= f < |word| && IsSuffix(word[f], s) && |word[f]| <= hi &&
                              NoExtension(idx.Keys, s, c, |word[f]|, hi)
        decreases if f == -1 then 0 else |word[f]| + 1
      {
        if f == 0 {
          assert word[0] + [c] == [c];
          FollowFailFromRoot(idx.Keys, s, c, hi);
        } else {
          assert LinkedAt(fail, output, word, idx, added, f);
          FollowFail(idx.Keys, s, c, word[f], word[fail[f]], hi);
          SuffixTrans(word[fail[f]], word[f], s);
        }
        f := fail[f];
      }
    }

    /** One pass of build_fail_links' inner loop: link the `c`-child of
        `cur` and merge its failure target's output into its own. */
    method LinkChild(cur: int, c: char, ghost unseen: set<int>) returns (child: int)
      requires Partial(children, fail, output, word, idx, added, unseen)
      requires 0 < cur < |children| && cur !in unseen && c in children[cur] && children[cur][c] in unseen
      requires forall x :: 0 <= x < |word| && x in unseen ==> |word[cur]| < |word[x]|
      modifies this`fail, this`output
      ensures child == children[cur][c] && 0 < child < |children| == |old(fail)| == |old(output)|
      ensures Partial(children, fail, output, word, idx, added, unseen - {child})
      ensures fail == old(fail)[child := fail[child]] && output == old(output)[child := output[child]]
      ensures 0 <= fail[child] < |children|
      ensures output[child] == old(output[child]) + (if fail[child] == 0 then [] else old(output)[fail[child]])
    {
      child := children[cur][c];
      ChildOf(children, word, idx, cur, c);
      assert LinkedAt(fail, output, word, idx, added, cur);
      StartAtFail(idx.Keys, word[cur], c, word[fail[cur]]);
      var failNode := FailWalk(fail[cur], c, word[cur], |word[cur]| - 1, unseen);
      if failNode == -1 {
        LinkToRoot(children, fail, output, word, idx, added, unseen, word[cur], c, child);
        fail := fail[child := 0];
      } else {
        ChildOf(children, word, idx, failNode, c);
        var target := children[failNode][c];
        LinkToNode(children, fail, output, word, idx, added, unseen, word[cur], c, child, failNode);
        fail := fail[child := target];
        output := output[child := output[child] + output[target]];
      }
    }

    /** The first loop of build_fail_links: every child of the root gets the
        root as failure link and joins the queue. */
    method LinkRootChildren() returns (queue: seq<int>, ghost order: seq<int>, ghost unseen: set<int>)
      requires Partial(children, fail, output, word, idx, added, NonRoot(word))
      modifies this`fail
      ensures Partial(children, fail, output, word, idx, added, unseen)
      ensures Scheduled(children, word, idx, order, 1, {}) && Tracks(order, unseen, |word|)
      ensures queue == order[1..]
      ensures SlotsKept(old(fail), old(output), fail, output, children[0].Values)
      ensures LinkedToRoot(children[0], fail, {})
    {
      ScheduleStart(children, word, idx);
      unseen := NonRoot(word);
      order := [0];
      queue := [];
      var rest := children[0].Keys;
      while rest != {}
        invariant Partial(children, fail, output, word, idx, added, unseen)
        invariant Scheduled(children, word, idx, order, 1, rest)
        invariant Tracks(order, unseen, |word|)
        invariant queue == order[1..]
        invariant SlotsKept(old(fail), old(output), fail, output, children[0].Values)
        invariant LinkedToRoot(children[0], fail, rest)
        decreases |rest|
      {
        var c :| c in rest;
        ghost var fail1 := fail;
        queue, order, unseen := LinkRootChild(c, queue, order, unseen, rest);
        SlotsKeptTrans(old(fail), old(output), fail1, output, fail, output, children[0].Values, children[0][c]);
        rest := rest - {c};
      }
    }

    /** The body of build_fail_links' first loop: the `c`-child of the root
        joins the queue and fails to the root. */
    method LinkRootChild(c: char, queue0: seq<int>, ghost order0: seq<int>, ghost unseen0: set<int>,
                         ghost rest: set<char>)
      returns (queue: seq<int>, ghost order: seq<int>, ghost unseen: set<int>)
      requires c in rest
      requires Partial(children, fail, output, word, idx, added, unseen0)
      requires Scheduled(children, word, idx, order0, 1, rest) && Tracks(order0, unseen0, |word|)
      requires queue0 == order0[1..]
      modifies this`fail
      ensures Partial(children, fail, output, word, idx, added, unseen)
      ensures Scheduled(children, word, idx, order, 1, rest - {c}) && Tracks(order, unseen, |word|)
      ensures queue == order[1..]
      ensures var y := children[0][c];
              0 <= y < |old(fail)| && fail == old(fail)[y := 0] &&
              queue == queue0 + [y] && order == order0 + [y]
      ensures SlotsKept(old(fail), old(output), fail, output, {children[0][c]})
    {
      var child := children[0][c];
      ChildOf(children, word, idx, 0, c);
      SchedulePush(children, word, idx, order0, 1, rest, c);
      Enqueue(order0, unseen0, queue0, 1, |word|, child);
      LinkToRoot(children, fail, output, word, idx, added, unseen0, [], c, child);
      fail := fail[child := 0];
      queue := queue0 + [child];
      order := order0 + [child];
      unseen := unseen0 - {child};
    }

    /** The body of build_fail_links' loop over the children of `current`:
        the `c`-child joins the queue and gets its failure link and output. */
    method VisitChild(current: int, c: char, queue0: seq<int>, ghost order0: seq<int>, ghost head: int,
                      ghost unseen0: set<int>, ghost rest: set<char>, ghost fail00: seq<int>, ghost output00: seq<seq<int>>)
      returns (queue: seq<int>, ghost order: seq<int>, ghost unseen: set<int>)
      requires 0 < current < |children| && c in rest
      requires Partial(children, fail, output, word, idx, added, unseen0)
      requires Scheduled(children, word, idx, order0, head, rest)
      requires Tracks(order0, unseen0, |word|) && queue0 == order0[head..] && current == order0[head - 1]
      requires SlotsKept(fail00, output00, fail, output, children[current].Values)
      modifies this`fail, this`output
      ensures Partial(children, fail, output, word, idx, added, unseen)
      ensures Scheduled(children, word, idx, order, head, rest - {c}) && Tracks(order, unseen, |word|)
      ensures queue == order[head..] && current == order[head - 1]
      ensures queue == queue0 + [children[current][c]] && order == order0 + [children[current][c]]
      ensures 2 * |unseen| + |queue| < 2 * |unseen0| + |queue0|
      ensures SlotsKept(old(fail), old(output), fail, output, {children[current][c]})
      ensures SlotsKept(fail00, output00, fail, output, children[current].Values)
    {
      UnseenDeeper(children, word, idx, order0, head, rest, unseen0);
      SchedulePush(children, word, idx, order0, head, rest, c);
      Enqueue(order0, unseen0, queue0, head, |word|, children[current][c]);
      ghost var fail0, output0 := fail, output;
      var child := LinkChild(current, c, unseen0);
      SlotsKeptOfUpdate(fail0, output0, fail, output, child);
      SlotsKeptTrans(fail00, output00, fail0, output0, fail, output, children[current].Values, child);
      queue := queue0 + [child];
      order := order0 + [child];
      unseen := unseen0 - {child};
    }

    /** One pass of build_fail_links' second loop once `current` has left
        the queue: each child of `current` joins the queue and is linked. */
    method VisitChildren(current: int, queue0: seq<int>, ghost order0: seq<int>, ghost head: int,
                         ghost unseen0: set<int>)
      returns (queue: seq<int>, ghost order: seq<int>, ghost unseen: set<int>)
      requires 0 < current < |children|
      requires Partial(children, fail, output, word, idx, added, unseen0)
      requires Scheduled(children, word, idx, order0, head, children[current].Keys)
      requires Tracks(order0, unseen0, |word|) && queue0 == order0[head..] && current == order0[head - 1]
      modifies this`fail, this`output
      ensures Partial(children, fail, output, word, idx, added, unseen)
      ensures Scheduled(children, word, idx, order, head, {}) && Tracks(order, unseen, |word|)
      ensures queue == order[head..] && 2 * |unseen| + |queue| <= 2 * |unseen0| + |queue0|
      ensures order[..head] == order0[..head] && QueuedChildren(queue0, queue, children[current])
      ensures SlotsKept(old(fail), old(output), fail, output, children[current].Values)
    {
      queue, order, unseen := queue0, order0, unseen0;
      var rest := children[current].Keys;
      ghost var kids: seq<int> := [];
      while rest != {}
        invariant ChildLoop(children, fail, output, word, idx, added, unseen, order, head, rest, queue, current,
                            queue0, order0, unseen0, kids, old(fail), old(output))
        decreases |rest|
      {
        var c :| c in rest;
        VisitedStep(queue0, queue, order0, order, kids, children[current], rest, c);
        kids := kids + [children[current][c]];
        queue, order, unseen := VisitChild(current, c, queue, order, head, unseen, rest, old(fail), old(output));
        rest := rest - {c};
      }
      VisitedAll(queue0, queue, order0, order, kids, children[current], head);
    }

    /** One pass of the second loop of build_fail_links: take the next node
        off the queue and link its children. */
    method VisitNext(queue0: seq<int>, ghost order0: seq<int>, ghost head0: int, ghost unseen0: set<int>)
      returns (queue: seq<int>, ghost order: seq<int>, ghost head: int, ghost unseen: set<int>)
      requires queue0 != []
      requires Partial(children, fail, output, word, idx, added, unseen0)
      requires Scheduled(children, word, idx, order0, head0, {}) && Tracks(order0, unseen0, |word|)
      requires queue0 == order0[head0..]
      modifies this`fail, this`output
      ensures Partial(children, fail, output, word, idx, added, unseen)
      ensures Scheduled(children, word, idx, order, head, {}) && Tracks(order, unseen, |word|)
      ensures queue == order[head..]
      ensures 2 * |unseen| + |queue| < 2 * |unseen0| + |queue0|
      ensures head == head0 + 1 && order[..head] == order0[..head]
      ensures QueuedChildren(queue0[1..], queue, children[queue0[0]])
      ensures SlotsKept(old(fail), old(output), fail, output, children[queue0[0]].Values)
    {
      head := head0 + 1;
      Dequeue(order0, queue0, head0);
      var current := queue0[0];
      SchedulePop(children, word, idx, order0, head0);
      queue, order, unseen := VisitChildren(current, queue0[1..], order0, head, unseen0);
    }

    /** The second loop of build_fail_links: take nodes off the queue in
        breadth-first order and link their children, until the queue is
        empty and every node is linked. */
    method DrainQueue(queue0: seq<int>, ghost order0: seq<int>, ghost unseen0: set<int>)
      requires Partial(children, fail, output, word, idx, added, unseen0)
      requires Scheduled(children, word, idx, order0, 1, {}) && Tracks(order0, unseen0, |word|)
      requires queue0 == order0[1..]
      modifies this`fail, this`output
      ensures Partial(children, fail, output, word, idx, added, {})
    {
      var queue := queue0;
      ghost var order, unseen, head := order0, unseen0, 1;
      while queue != []
        invariant Partial(children, fail, output, word, idx, added, unseen)
        invariant Scheduled(children, word, idx, order, head, {})
        invariant Tracks(order, unseen, |word|)
        invariant queue == order[head..]
        decreases 2 * |unseen| + |queue|
      {
        queue, order, head, unseen := VisitNext(queue, order, head, unseen);
      }
      Drained(children, word, idx, order, head, unseen);
      PartialDone(children, fail, output, word, idx, added, unseen);
    }

    /** build_fail_links: a breadth-first pass that gives every node but the
        root the node of its longest proper suffix in the trie as failure
        link, and all the patterns ending its string as output. */
    method BuildFailLinks()
      requires Valid() && !linked
      modifies this
      ensures Valid() && linked
      ensures children == old(children) && word == old(word) && idx == old(idx) && added == old(added)
      ensures fail[0] == -1
      ensures forall x :: 0 < x < |children| ==>
                0 <= fail[x] < |children| && FailTarget(idx.Keys, word[x], word[fail[x]]) &&
                Elems(output[x]) == Ending(added, word[x])
    {
      PartialOfUnlinked(children, fail, output, word, idx, added);
      var queue;
      ghost var order, unseen;
      queue, order, unseen := LinkRootChildren();
      DrainQueue(queue, order, unseen);
      PartialOfLinked(children, fail, output, word, idx, added);
      forall x | 0 < x < |children|
        ensures 0 <= fail[x] < |children| && FailTarget(idx.Keys, word[x], word[fail[x]]) &&
                Elems(output[x]) == Ending(added, word[x])
      {
        assert LinkedAt(fail, output, word, idx, added, x);
      }
      linked := true;
    }

    /** One character of search: follow failure links from `node` until a
        `ch`-edge exists and take it, or restart at the root when none does. */
    method Goto(node: int, ch: char, ghost s: string) returns (next: int)
      requires Valid() && linked
      requires 0 <= node < |children| && LongestIn(idx.Keys, s, word[node])
      ensures 0 <= next < |children| && LongestIn(idx.Keys, s + [ch], word[next])
      ensures Found(added, s + [ch]) == Found(added, s) + (if next == 0 then {} else Elems(output[next]))
    {
      PartialOfLinked(children, fail, output, word, idx, added);
      StartAtLongest(idx.Keys, s, ch, word[node]);
      var f := FailWalk(node, ch, s, |s|, {});
      if f == -1 {
        Extend(idx.Keys, s, ch, -1, |s|);
        FoundSnoc(idx.Keys, added, s, ch, []);
        EndingEmpty(added);
        next := 0;
      } else {
        ChildOf(children, word, idx, f, ch);
        Extend(idx.Keys, s, ch, |word[f]|, |s|);
        next := children[f][ch];
        assert (s + [ch])[|s + [ch]| - |word[next]|..] == s[|s| - |word[f]|..] + [ch];
        FoundSnoc(idx.Keys, added, s, ch, word[next]);
        assert LinkedAt(fail, output, word, idx, added, next);
      }
    }

    /** search: feed `text` through the automaton and collect the outputs of
        every node reached; the result is the set of indices of the non-empty
        patterns that occur in `text`. */
    method Search(text: string) returns (matched: set<int>)
      requires Valid() && linked
      ensures matched == Found(added, text)
    {
      matched := {};
      var node := 0;
      var i := 0;
      assert text[..0] == [];
      while i < |text|
        invariant 0 <= i <= |text|
        invariant 0 <= node < |children| && LongestIn(idx.Keys, text[..i], word[node])
        invariant matched == Found(added, text[..i])
      {
        var ch := text[i];
        assert text[..i + 1] == text[..i] + [ch];
        node := Goto(node, ch, text[..i]);
        if node != 0 {
          matched := matched + Elems(output[node]);
        }
        i := i + 1;
      }
      assert text[..|text|] == text;
    }
  }
}
