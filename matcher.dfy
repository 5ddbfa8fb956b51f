/** DataMatcher of data_matcher.py: exact matching with scoring
    (match_strategy), the Jaccard fallback (fuzzy_match and
    calculate_similarity) and the index it keeps over the strategy table
    (build_keyword_index). */
module Matcher {
  import opened Wrappers
  import opened Text
  import opened Corpus
  import opened Ranking
  import AhoCorasick

  /** One OCR result: `{"text": ..., "score": ...}`. */
  datatype Fragment = Fragment(text: string, score: real)

  /** The confidence cutoff fuzzy_match applies whatever its caller asks. */
  const FuzzyCutoff: real := 0.75
  /** The default `min_score` of match_strategy. */
  const DefaultMinScore: real := 0.75
  /** The default `threshold` of fuzzy_match. */
  const DefaultThreshold: real := 0.6

  /** `[r for r in ocr_results if r["score"] >= min_score]`. */
  function Kept(fs: seq<Fragment>, minScore: real): seq<Fragment>
  {
    if fs == [] then []
    else (if fs[0].score >= minScore then [fs[0]] else []) + Kept(fs[1..], minScore)
  }

  /** Kept keeps exactly the fragments at or above the cutoff, in order. */
  lemma {:induction false} KeptMembers(fs: seq<Fragment>, minScore: real)
    ensures forall f :: f in Kept(fs, minScore) <==> f in fs && f.score >= minScore
    ensures |Kept(fs, minScore)| <= |fs|
    decreases |fs|
  {
    if fs != [] {
      KeptMembers(fs[1..], minScore);
      assert fs == [fs[0]] + fs[1..];
    }
  }

  /** Raising the cutoff keeps a subsequence: filtering at the higher cutoff
      what the lower one kept is filtering at the higher one directly. */
  lemma {:induction false} KeptTwice(fs: seq<Fragment>, lo: real, hi: real)
    requires lo <= hi
    ensures Kept(Kept(fs, lo), hi) == Kept(fs, hi)
    decreases |fs|
  {
    if fs != [] {
      KeptTwice(fs[1..], lo, hi);
      var head := if fs[0].score >= lo then [fs[0]] else [];
      KeptAppend(head, Kept(fs[1..], lo), hi);
    }
  }

  lemma {:induction false} KeptAppend(a: seq<Fragment>, b: seq<Fragment>, minScore: real)
    ensures Kept(a + b, minScore) == Kept(a, minScore) + Kept(b, minScore)
    decreases |a|
  {
    if a == [] {
      assert a + b == b;
    } else {
      var head := if a[0].score >= minScore then [a[0]] else [];
      assert (a + b)[0] == a[0] && (a + b)[1..] == a[1..] + b;
      KeptAppend(a[1..], b, minScore);
      assert Kept(a + b, minScore) == head + (Kept(a[1..], minScore) + Kept(b, minScore));
      assert Kept(a, minScore) == head + Kept(a[1..], minScore);
    }
  }

  /** `"".join([r["text"] for r in filtered_results])`. */
  function Joined(fs: seq<Fragment>): string
  {
    if fs == [] then [] else fs[0].text + Joined(fs[1..])
  }

  /** Every fragment's text occurs, whole, in the joined text. */
  lemma {:induction false} JoinedContains(fs: seq<Fragment>, k: int)
    requires 0 <= k < |fs|
    ensures Contains(Joined(fs), fs[k].text)
    decreases |fs|
  {
    var u := Joined(fs[1..]);
    if k == 0 {
      ContainsPrefix(fs[0].text, u);
    } else {
      JoinedContains(fs[1..], k - 1);
      var t := Joined(fs);
      assert t[|t| - |u|..] == u;
      ContainsInSuffix(t, u, fs[k].text);
    }
  }

  /** `''.join(re.findall(r'[一-龥]+', recognized_text))`. */
  function ChineseText(t: string): string
  {
    Concat(CjkRuns(t))
  }

  /** The score of one matched name: 10 if it occurs in the recognized text,
      plus 8 if it occurs in the text's CJK-only reduction. */
  function ScoreOf(name: string, text: string): real
  {
    (if Contains(text, name) then 10.0 else 0.0) + (if Contains(ChineseText(text), name) then 8.0 else 0.0)
  }

  /** The indices the automaton reports: those of the full text, or, when it
      reports none, those of the CJK-only reduction. */
  function HitSet(rs: seq<Record>, text: string): set<int>
  {
    if Hits(rs, text) != {} then Hits(rs, text) else Hits(rs, ChineseText(text))
  }

  /** The elements of `s` below `n` in increasing order: the order matched
      indices are scored in, which fixes the order of equal scores. */
  function AscendingBelow(s: set<int>, n: nat): (ids: seq<int>)
    ensures forall k :: 0 <= k < |ids| ==> ids[k] in s && 0 <= ids[k] < n
    ensures forall x :: x in s && 0 <= x < n ==> x in ids
    ensures forall i, j :: 0 <= i < j < |ids| ==> ids[i] < ids[j]
  {
    if n == 0 then [] else AscendingBelow(s, n - 1) + (if n - 1 in s then [n - 1] else [])
  }

  /** Every index in `ids` is the row of an indexed name. */
  predicate EligibleIds(rs: seq<Record>, ids: seq<int>)
  {
    forall k :: 0 <= k < |ids| ==> 0 <= ids[k] < |rs| && Eligible(rs[ids[k]])
  }

  /** `strategy_scores`, as (index, score) pairs in the order of `ids`. */
  function Scores(rs: seq<Record>, text: string, ids: seq<int>): seq<Scored>
    requires EligibleIds(rs, ids)
  {
    if ids == [] then []
    else
      var i := ids[|ids| - 1];
      assert 0 <= i < |rs| && Eligible(rs[i]);
      Scores(rs, text, ids[..|ids| - 1]) + [Scored(i, ScoreOf(rs[i].name.value, text))]
  }

  lemma {:induction false} ScoresSpec(rs: seq<Record>, text: string, ids: seq<int>)
    requires EligibleIds(rs, ids)
    ensures |Scores(rs, text, ids)| == |ids|
    ensures forall k :: 0 <= k < |ids| ==>
              Scores(rs, text, ids)[k] == Scored(ids[k], ScoreOf(rs[ids[k]].name.value, text))
    decreases |ids|
  {
    if ids != [] {
      ScoresSpec(rs, text, ids[..|ids| - 1]);
    }
  }

  /** The rows behind a ranking, in ranking order. */
  function Records(rs: seq<Record>, ranking: seq<Scored>): seq<Record>
    requires forall k :: 0 <= k < |ranking| ==> 0 <= ranking[k].id < |rs|
  {
    seq(|ranking|, k requires 0 <= k < |ranking| => rs[ranking[k].id])
  }

  /** The hits of `hits`, scored in increasing index order and sorted. */
  function Ranked(rs: seq<Record>, text: string, hits: set<int>): seq<Scored>
    requires forall i :: i in hits ==> 0 <= i < |rs| && Eligible(rs[i])
  {
    SortDesc(Scores(rs, text, AscendingBelow(hits, |rs|)))
  }

  /** A sequence carrying the ids `ids`, position by position, has exactly
      the ids of `s`. */
  lemma IdsOfSpine(sc: seq<Scored>, ids: seq<int>, s: set<int>)
    requires |sc| == |ids| && forall k :: 0 <= k < |ids| ==> sc[k].id == ids[k]
    requires forall k :: 0 <= k < |ids| ==> ids[k] in s
    requires forall x :: x in s ==> x in ids
    ensures Ids(sc) == s
  {
    forall i | i in s
      ensures i in Ids(sc)
    {
      var m :| 0 <= m < |ids| && ids[m] == i;
      assert sc[m] in sc;
    }
    forall i | i in Ids(sc)
      ensures i in s
    {
      var x :| x in sc && x.id == i;
      var m :| 0 <= m < |sc| && sc[m] == x;
    }
  }

  /** The scored hits, before sorting, are the hits in increasing order. */
  lemma ScoredHits(rs: seq<Record>, text: string, hits: set<int>)
    requires forall i :: i in hits ==> 0 <= i < |rs| && Eligible(rs[i])
    ensures var sc := Scores(rs, text, AscendingBelow(hits, |rs|));
            Ids(sc) == hits && IdsAscending(sc)
  {
    var ids := AscendingBelow(hits, |rs|);
    var sc := Scores(rs, text, ids);
    ScoresSpec(rs, text, ids);
    IdsOfSpine(sc, ids, hits);
  }

  /** Ranked holds each hit once, best score first, equal scores in
      increasing index order. */
  lemma RankedOrder(rs: seq<Record>, text: string, hits: set<int>)
    requires forall i :: i in hits ==> 0 <= i < |rs| && Eligible(rs[i])
    ensures var r := Ranked(rs, text, hits);
            Ids(r) == hits && IdsDistinct(r) && Descending(r) && TiesAscending(r)
  {
    var sc := Scores(rs, text, AscendingBelow(hits, |rs|));
    ScoredHits(rs, text, hits);
    SortDescSpec(sc);
    SortDescStable(sc);
    SortDescDistinct(sc);
    SortDescIds(sc);
  }

  /** Every entry of Ranked is a hit with its score. */
  lemma RankedEntries(rs: seq<Record>, text: string, hits: set<int>)
    requires forall i :: i in hits ==> 0 <= i < |rs| && Eligible(rs[i])
    ensures var r := Ranked(rs, text, hits);
            forall k :: 0 <= k < |r| ==> r[k].id in hits && r[k].key == ScoreOf(rs[r[k].id].name.value, text)
  {
    var ids := AscendingBelow(hits, |rs|);
    var sc := Scores(rs, text, ids);
    ScoresSpec(rs, text, ids);
    SortDescMembers(sc);
    var r := SortDesc(sc);
    forall k | 0 <= k < |r|
      ensures r[k].id in hits && r[k].key == ScoreOf(rs[r[k].id].name.value, text)
    {
      assert r[k] in r;
      var m :| 0 <= m < |sc| && sc[m] == r[k];
    }
  }

  /** The scored indices match_strategy emits, best first. */
  function ExactRanking(rs: seq<Record>, fs: seq<Fragment>, minScore: real): seq<Scored>
  {
    var kept := Kept(fs, minScore);
    if kept == [] then []
    else
      var text := Joined(kept);
      var hits := HitSet(rs, text);
      if hits == {} then [] else Ranked(rs, text, hits)
  }

  /** match_strategy reports exactly the indices found in the joined text of
      the confident fragments, or in its CJK-only reduction when the first
      search finds nothing; each once, best score first, equal scores in
      increasing index order. */
  lemma ExactRankingHits(rs: seq<Record>, fs: seq<Fragment>, minScore: real)
    ensures var r := ExactRanking(rs, fs, minScore);
            var kept := Kept(fs, minScore);
            Ids(r) == (if kept == [] then {} else HitSet(rs, Joined(kept))) &&
            IdsDistinct(r) && Descending(r) && TiesAscending(r)
  {
    var kept := Kept(fs, minScore);
    if kept != [] && HitSet(rs, Joined(kept)) != {} {
      RankedOrder(rs, Joined(kept), HitSet(rs, Joined(kept)));
    }
  }

  /** Each reported index is an indexed row, scored 10 for occurring in the
      joined text plus 8 for occurring in its CJK-only reduction; since a
      hit occurs in one of the two, no reported score is below 8. */
  lemma ExactRankingScores(rs: seq<Record>, fs: seq<Fragment>, minScore: real)
    ensures var r := ExactRanking(rs, fs, minScore);
            var text := Joined(Kept(fs, minScore));
            forall k :: 0 <= k < |r| ==>
              0 <= r[k].id < |rs| && Eligible(rs[r[k].id]) &&
              r[k].key == ScoreOf(rs[r[k].id].name.value, text) && r[k].key >= 8.0
  {
    var kept := Kept(fs, minScore);
    if kept != [] && HitSet(rs, Joined(kept)) != {} {
      RankedEntries(rs, Joined(kept), HitSet(rs, Joined(kept)));
    }
  }

  /** match_strategy's result: the rows of the ranked indices. */
  function ExactMatch(rs: seq<Record>, fs: seq<Fragment>, minScore: real): seq<Record>
  {
    ExactRankingScores(rs, fs, minScore);
    Records(rs, ExactRanking(rs, fs, minScore))
  }

  /** Nothing is returned when no fragment reaches the cutoff. */
  lemma ExactMatchNoneKept(rs: seq<Record>, fs: seq<Fragment>, minScore: real)
    requires forall k :: 0 <= k < |fs| ==> fs[k].score < minScore
    ensures ExactMatch(rs, fs, minScore) == []
  {
    KeptMembers(fs, minScore);
  }

  /** A confident fragment that contains an indexed name is enough for its
      record to be returned. */
  lemma FragmentNameFound(rs: seq<Record>, fs: seq<Fragment>, minScore: real, k: int, i: int)
    requires 0 <= k < |fs| && fs[k].score >= minScore
    requires 0 <= i < |rs| && Eligible(rs[i]) && Contains(fs[k].text, rs[i].name.value)
    ensures i in Ids(ExactRanking(rs, fs, minScore))
  {
    var kept := Kept(fs, minScore);
    KeptMembers(fs, minScore);
    assert fs[k] in kept;
    var m :| 0 <= m < |kept| && kept[m] == fs[k];
    JoinedContains(kept, m);
    var t := Joined(kept);
    ContainsTrans(t, fs[k].text, rs[i].name.value);
    assert i in Hits(rs, t);
    assert HitSet(rs, t) == Hits(rs, t);
    ExactRankingHits(rs, fs, minScore);
  }

  /** The test case of test_matcher.py: with a record named 复仇心切 in the
      table, the single fragment 送复仇心切 at confidence 0.78 passes the
      default cutoff and the record is returned with the top score 18. */
  lemma RevengeScenario(rs: seq<Record>, i: int)
    requires 0 <= i < |rs| && rs[i].name == Some("复仇心切")
    ensures var r := ExactRanking(rs, [Fragment("送复仇心切", 0.78)], DefaultMinScore);
            exists k :: 0 <= k < |r| && r[k] == Scored(i, 18.0) && rs[r[k].id] == rs[i]
  {
    var fs := [Fragment("送复仇心切", 0.78)];
    var text := "送复仇心切";
    assert Kept(fs, DefaultMinScore) == fs;
    assert Joined(fs) == text;
    assert IsSuffix("复仇心切", text);
    assert Contains(text, "复仇心切");
    CjkOnlyFixed(text);
    RunsJoin(text);
    assert ChineseText(text) == text;
    FragmentNameFound(rs, fs, DefaultMinScore, 0, i);
    ExactRankingScores(rs, fs, DefaultMinScore);
    var r := ExactRanking(rs, fs, DefaultMinScore);
    var x :| x in r && x.id == i;
    var k :| 0 <= k < |r| && r[k] == x;
    assert r[k].key == 18.0;
  }

  /** Raising min_score can turn an empty answer into a non-empty one:
      dropping a low-confidence fragment makes its neighbours adjacent in
      the joined text.  Here "AB", "x", "CD" with the record "ABCD". */
  lemma RaisingCutoffCanAddResults()
    ensures var rs := [Record(None, Some("ABCD"), None, None)];
            var fs := [Fragment("AB", 0.9), Fragment("x", 0.5), Fragment("CD", 0.9)];
            ExactMatch(rs, fs, 0.4) == [] && ExactMatch(rs, fs, 0.8) == rs
  {
    var rs := [Record(None, Some("ABCD"), None, None)];
    var fs := [Fragment("AB", 0.9), Fragment("x", 0.5), Fragment("CD", 0.9)];
    LowCutoff(rs, fs);
    HighCutoff(rs, fs);
    RecordsOfSingle(rs, ExactRanking(rs, fs, 0.8));
  }

  /** A one-entry ranking of the only row of a one-row table yields that row. */
  lemma RecordsOfSingle(rs: seq<Record>, r: seq<Scored>)
    requires |rs| == 1 && |r| == 1 && r[0].id == 0
    ensures Records(rs, r) == rs
  {
  }

  lemma LowCutoff(rs: seq<Record>, fs: seq<Fragment>)
    requires rs == [Record(None, Some("ABCD"), None, None)]
    requires fs == [Fragment("AB", 0.9), Fragment("x", 0.5), Fragment("CD", 0.9)]
    ensures ExactRanking(rs, fs, 0.4) == []
  {
    var last := [fs[2]];
    assert fs[1..] == [fs[1]] + last && last[1..] == [];
    assert Kept(last, 0.4) == last;
    assert Kept(fs[1..], 0.4) == fs[1..];
    assert Kept(fs, 0.4) == fs;
    assert Joined(last) == "CD";
    assert Joined(fs[1..]) == "xCD";
    assert Joined(fs) == "ABxCD";
    assert !Contains("ABxCD", "ABCD") by {
      NotInABxCD();
    }
    assert Hits(rs, "ABxCD") == {};
    assert ChineseText("ABxCD") == [] by {
      RunsJoin("ABxCD");
    }
    assert !Contains([], "ABCD");
    assert Hits(rs, []) == {};
  }

  lemma HighCutoff(rs: seq<Record>, fs: seq<Fragment>)
    requires rs == [Record(None, Some("ABCD"), None, None)]
    requires fs == [Fragment("AB", 0.9), Fragment("x", 0.5), Fragment("CD", 0.9)]
    ensures |ExactRanking(rs, fs, 0.8)| == 1 && ExactRanking(rs, fs, 0.8)[0].id == 0
  {
    HighCutoffText(fs);
    HitsInABCD(rs);
  }

  /** At cutoff 0.8 the fragments "AB" and "CD" are joined into "ABCD". */
  lemma HighCutoffText(fs: seq<Fragment>)
    requires fs == [Fragment("AB", 0.9), Fragment("x", 0.5), Fragment("CD", 0.9)]
    ensures Kept(fs, 0.8) != [] && Joined(Kept(fs, 0.8)) == "ABCD"
  {
    var kept := Kept(fs, 0.8);
    var last := [fs[2]];
    assert fs[1..] == [fs[1]] + last && last[1..] == [];
    assert Kept(last, 0.8) == last;
    assert Kept(fs[1..], 0.8) == last;
    assert kept == [fs[0]] + last;
    assert Joined(last) == "CD";
    assert ([fs[0]] + last)[1..] == last;
  }

  /** In "ABCD" the record named "ABCD" is found and ranks alone. */
  lemma HitsInABCD(rs: seq<Record>)
    requires rs == [Record(None, Some("ABCD"), None, None)]
    ensures HitSet(rs, "ABCD") == {0}
    ensures |Ranked(rs, "ABCD", {0})| == 1 && Ranked(rs, "ABCD", {0})[0].id == 0
  {
    FoundInABCD(rs);
    RankedAlone(rs);
  }

  lemma FoundInABCD(rs: seq<Record>)
    requires rs == [Record(None, Some("ABCD"), None, None)]
    ensures Hits(rs, "ABCD") == {0}
  {
    assert Contains("ABCD", "ABCD") by {
      assert IsSuffix("ABCD", "ABCD");
    }
    assert 0 in Hits(rs, "ABCD");
    forall i | i in Hits(rs, "ABCD")
      ensures i == 0
    {
    }
  }

  lemma RankedAlone(rs: seq<Record>)
    requires rs == [Record(None, Some("ABCD"), None, None)]
    ensures |Ranked(rs, "ABCD", {0})| == 1 && Ranked(rs, "ABCD", {0})[0].id == 0
  {
    var ids := AscendingBelow({0}, 1);
    assert ids == [0];
    ScoresSpec(rs, "ABCD", ids);
    var sc := Scores(rs, "ABCD", ids);
    assert |sc| == 1;
    assert sc[..0] == [];
    assert SortDesc(sc) == Insert(sc[0], []) == [sc[0]];
  }

  lemma {:induction false} ShorterNotContains(t: string, p: string)
    requires |t| < |p|
    ensures !Contains(t, p)
    decreases |t|
  {
    if t != [] {
      ShorterNotContains(t[..|t| - 1], p);
    }
  }

  lemma NotInABxCD()
    ensures !Contains("ABxCD", "ABCD")
  {
    var t: string, p: string := "ABxCD", "ABCD";
    assert t[1..][0] != p[0];
    var t' := t[..4];
    assert t'[2] != p[2];
    assert t'[..3] == "ABx";
    ShorterNotContains(t'[..3], p);
  }

  /** ''.join of the name and effect cells, skipping missing ones. */
  function StrategyText(r: Record): string
  {
    (if r.name.Some? then r.name.value else []) + (if r.effect.Some? then r.effect.value else [])
  }

  /** `set(re.findall(r'[一-龥]+', t))`. */
  function RunSet(t: string): set<string>
  {
    set w | w in CjkRuns(t)
  }

  lemma SubsetCard<T>(a: set<T>, b: set<T>)
    requires a <= b
    ensures |a| <= |b|
  {
    assert b == a + (b - a);
  }

  lemma RatioBounds(a: nat, b: nat)
    requires a <= b && b > 0
    ensures 0.0 <= (a as real) / (b as real) <= 1.0
  {
  }

  /** The Jaccard index of two sets of words, 0 when both are empty. */
  function Jaccard(w1: set<string>, w2: set<string>): (j: real)
    ensures 0.0 <= j <= 1.0
  {
    var inter, union := w1 * w2, w1 + w2;
    if |union| == 0 then 0.0
    else
      SubsetCard(inter, union);
      RatioBounds(|inter|, |union|);
      (|inter| as real) / (|union| as real)
  }

  /** The index is 0 exactly when the sets are disjoint. */
  lemma JaccardZero(w1: set<string>, w2: set<string>)
    ensures Jaccard(w1, w2) == 0.0 <==> w1 !! w2
  {
    if |w1 + w2| != 0 && !(w1 !! w2) {
      var x :| x in w1 && x in w2;
      assert x in w1 * w2;
    }
  }

  /** calculate_similarity: the Jaccard index of the two run sets. */
  function Similarity(t1: string, t2: string): (j: real)
    ensures 0.0 <= j <= 1.0
  {
    Jaccard(RunSet(t1), RunSet(t2))
  }

  /** Similarity is 0 exactly when the texts share no run. */
  lemma SimilarityZero(a: string, b: string)
    ensures Similarity(a, b) == 0.0 <==> RunSet(a) !! RunSet(b)
  {
    JaccardZero(RunSet(a), RunSet(b));
  }

  lemma SimilaritySymmetric(a: string, b: string)
    ensures Similarity(a, b) == Similarity(b, a)
  {
    assert RunSet(a) * RunSet(b) == RunSet(b) * RunSet(a);
    assert RunSet(a) + RunSet(b) == RunSet(b) + RunSet(a);
  }

  /** A text is fully similar to itself exactly when it has a CJK run; a
      text without one scores 0 even against itself. */
  lemma SimilarityToItself(t: string)
    ensures Similarity(t, t) == 1.0 <==> CjkRuns(t) != []
  {
    var w := RunSet(t);
    assert w * w == w && w + w == w;
    if CjkRuns(t) != [] {
      assert CjkRuns(t)[0] in w;
    }
  }

  /** Two all-CJK texts that differ are single, different runs: similarity 0. */
  lemma SimilarityOfBlocks(a: string, b: string)
    requires a != [] && AllCjk(a) && b != [] && AllCjk(b) && a != b
    ensures Similarity(a, b) == 0.0
  {
    RunsOfBlock(a);
    RunsOfBlock(b);
    assert RunSet(a) == {a};
    assert RunSet(b) == {b};
  }

  /** A row with neither a name nor an effect has an empty comparison
      string, which has no run: it scores 0 against any text. */
  lemma EmptyRowScoresZero(r: Record, text: string)
    requires r.name.None? && r.effect.None?
    ensures StrategyText(r) == [] && Similarity(text, StrategyText(r)) == 0.0
  {
    assert RunSet([]) == {};
    JaccardZero(RunSet(text), RunSet([]));
  }

  /** The name and effect cells are glued without a separator, so an all-CJK
      name followed by an all-CJK effect forms one run: the name alone
      scores 0 against the row, the two cells together score 1. */
  lemma GluedCells(r: Record)
    requires r.name.Some? && r.name.value != [] && AllCjk(r.name.value)
    requires r.effect.Some? && r.effect.value != [] && AllCjk(r.effect.value)
    ensures Similarity(r.name.value, StrategyText(r)) == 0.0
    ensures Similarity(r.name.value + r.effect.value, StrategyText(r)) == 1.0
  {
    var n, e := r.name.value, r.effect.value;
    var t := StrategyText(r);
    assert t == n + e;
    assert AllCjk(t) by {
      forall i | 0 <= i < |t|
        ensures IsCjk(t[i])
      {
        if i < |n| { assert t[i] == n[i]; } else { assert t[i] == e[i - |n|]; }
      }
    }
    assert |t| > |n|;
    SimilarityOfBlocks(n, t);
    RunsOfBlock(t);
    SimilarityToItself(t);
  }

  /** The similarity of every row's name and effect to `text`, in table order. */
  function Similarities(rs: seq<Record>, text: string): seq<real>
  {
    seq(|rs|, i requires 0 <= i < |rs| => Similarity(text, StrategyText(rs[i])))
  }

  /** The (index, key) pairs whose key reaches `threshold`, in index order:
      the rows fuzzy_match collects, given their similarities. */
  function AtLeast(keys: seq<real>, threshold: real): seq<Scored>
  {
    if keys == [] then []
    else
      var key := keys[|keys| - 1];
      AtLeast(keys[..|keys| - 1], threshold) + (if key >= threshold then [Scored(|keys| - 1, key)] else [])
  }

  /** The collected pairs come in index order, each with its own key, no key
      below the threshold. */
  lemma {:induction false} AtLeastKeys(keys: seq<real>, threshold: real)
    ensures var s := AtLeast(keys, threshold);
            IdsAscending(s) && |s| <= |keys| &&
            forall k :: 0 <= k < |s| ==> 0 <= s[k].id < |keys| && s[k].key == keys[s[k].id] >= threshold
    decreases |keys|
  {
    if keys != [] {
      var p := keys[..|keys| - 1];
      AtLeastKeys(p, threshold);
    }
  }

  /** Every index whose key reaches the threshold is collected. */
  lemma {:induction false} AtLeastComplete(keys: seq<real>, threshold: real, i: int)
    requires 0 <= i < |keys| && keys[i] >= threshold
    ensures i in Ids(AtLeast(keys, threshold))
    decreases |keys|
  {
    var s := AtLeast(keys, threshold);
    var p := keys[..|keys| - 1];
    var sp := AtLeast(p, threshold);
    assert s[..|sp|] == sp;
    if i < |p| {
      AtLeastComplete(p, threshold, i);
      var x :| x in sp && x.id == i;
      assert x in s;
    } else {
      assert s[|s| - 1] in s;
    }
  }

  /** The scored indices fuzzy_match emits, most similar first. */
  function FuzzyRanking(rs: seq<Record>, fs: seq<Fragment>, threshold: real): seq<Scored>
  {
    var kept := Kept(fs, FuzzyCutoff);
    if kept == [] then [] else SortDesc(AtLeast(Similarities(rs, Joined(kept)), threshold))
  }

  /** fuzzy_match keeps a record exactly when its similarity to the joined
      confident text reaches the threshold, and orders by similarity,
      descending, equal similarities in table order. */
  lemma FuzzyRankingSpec(rs: seq<Record>, fs: seq<Fragment>, threshold: real)
    ensures var r := FuzzyRanking(rs, fs, threshold);
            var kept := Kept(fs, FuzzyCutoff);
            (forall i :: i in Ids(r) <==>
               kept != [] && 0 <= i < |rs| && Similarity(Joined(kept), StrategyText(rs[i])) >= threshold) &&
            IdsDistinct(r) && Descending(r) && TiesAscending(r) && |r| <= |rs| &&
            forall k :: 0 <= k < |r| ==>
              0 <= r[k].id < |rs| && r[k].key == Similarity(Joined(kept), StrategyText(rs[r[k].id]))
  {
    var kept := Kept(fs, FuzzyCutoff);
    if kept != [] {
      var sims := Similarities(rs, Joined(kept));
      assert |sims| == |rs|;
      assert forall i :: 0 <= i < |rs| ==> sims[i] == Similarity(Joined(kept), StrategyText(rs[i]));
      var s := AtLeast(sims, threshold);
      AtLeastKeys(sims, threshold);
      forall i | 0 <= i < |rs| && sims[i] >= threshold
        ensures i in Ids(s)
      {
        AtLeastComplete(sims, threshold, i);
      }
      SortDescSpec(s);
      SortDescStable(s);
      SortDescDistinct(s);
      SortDescIds(s);
      var r := SortDesc(s);
      forall i | i in Ids(s)
        ensures 0 <= i < |rs| && sims[i] >= threshold
      {
        var x :| x in s && x.id == i;
        var m :| 0 <= m < |s| && s[m] == x;
      }
      forall k | 0 <= k < |r|
        ensures 0 <= r[k].id < |rs| && r[k].key == sims[r[k].id]
      {
        assert r[k] in multiset(s);
        var m :| 0 <= m < |s| && s[m] == r[k];
      }
    }
  }

  /** At the default threshold fuzzy_match never returns a row whose name
      and effect are both missing. */
  lemma FuzzySkipsEmptyRows(rs: seq<Record>, fs: seq<Fragment>, i: int)
    requires 0 <= i < |rs| && rs[i].name.None? && rs[i].effect.None?
    ensures i !in Ids(FuzzyRanking(rs, fs, DefaultThreshold))
  {
    FuzzyRankingSpec(rs, fs, DefaultThreshold);
    EmptyRowScoresZero(rs[i], Joined(Kept(fs, FuzzyCutoff)));
  }

  /** fuzzy_match's result: the rows of the ranked indices. */
  function FuzzyMatch(rs: seq<Record>, fs: seq<Fragment>, threshold: real): seq<Record>
  {
    FuzzyRankingSpec(rs, fs, threshold);
    Records(rs, FuzzyRanking(rs, fs, threshold))
  }

  /** The DataMatcher object once load_strategy_data has read the table:
      the rows, the automaton (None until built) and the two maps. */
  class DataMatcher {
    var records: seq<Record>
    var automaton: AhoCorasick.Automaton?
    /** pattern_index_map */
    var patternIndex: map<string, int>
    /** index_pattern_map */
    var indexPattern: map<int, string>

    ghost predicate Valid()
      reads this, automaton
    {
      (automaton == null ==> records == []) &&
      (automaton != null ==>
         automaton.Valid() && automaton.linked && automaton.added == Patterns(records)) &&
      patternIndex == PatternIndexMap(records) && indexPattern == IndexPatternMap(records)
    }

    /** A matcher over the rows `loaded`; the index is built only when there
        is at least one row, as load_strategy_data does. */
    constructor (loaded: seq<Record>)
      ensures Valid() && records == loaded
      ensures loaded != [] <==> automaton != null
    {
      records := loaded;
      automaton := null;
      patternIndex := map[];
      indexPattern := map[];
      new;
      if loaded != [] {
        BuildKeywordIndex();
      }
    }

    /** build_keyword_index: a fresh automaton holding every eligible name
        with its row index, the two maps rebuilt, and failure links built. */
    method BuildKeywordIndex()
      modifies this
      ensures records == old(records) && Valid()
      ensures automaton != null && fresh(automaton)
    {
      var ac := new AhoCorasick.Automaton();
      automaton := ac;
      patternIndex := map[];
      indexPattern := map[];
      var i := 0;
      while i < |records|
        invariant 0 <= i <= |records| && records == old(records)
        invariant automaton == ac && fresh(ac)
        invariant ac.Valid() && !ac.linked && ac.added == Patterns(records[..i])
        invariant patternIndex == PatternIndexMap(records[..i]) && indexPattern == IndexPatternMap(records[..i])
      {
        IndexRow(i);
        i := i + 1;
      }
      assert records[..i] == records;
      ac.BuildFailLinks();
    }

    /** One pass of build_keyword_index's loop: row `i` becomes a pattern and
        enters both maps when its name is present and long enough. */
    method IndexRow(i: int)
      requires 0 <= i < |records| && automaton != null
      requires automaton.Valid() && !automaton.linked && automaton.added == Patterns(records[..i])
      requires patternIndex == PatternIndexMap(records[..i]) && indexPattern == IndexPatternMap(records[..i])
      modifies this`patternIndex, this`indexPattern, automaton
      ensures automaton.Valid() && !automaton.linked && automaton.added == Patterns(records[..i + 1])
      ensures patternIndex == PatternIndexMap(records[..i + 1]) && indexPattern == IndexPatternMap(records[..i + 1])
    {
      assert records[..i + 1][..i] == records[..i];
      var row := records[i];
      if row.name.Some? {
        var name := row.name.value;
        if |name| >= MinNameLength {
          automaton.AddPattern(name, i);
          patternIndex := patternIndex[name := i];
          indexPattern := indexPattern[i := name];
        }
      }
    }

    /** match_strategy: search the joined text of the fragments at or above
        `minScore`, fall back to its CJK-only reduction, score every hit and
        sort by score. */
    method MatchStrategy(fs: seq<Fragment>, minScore: real) returns (result: seq<Record>)
      requires Valid()
      ensures result == ExactMatch(records, fs, minScore)
    {
      if automaton == null {
        return [];
      }
      var kept := Kept(fs, minScore);
      if kept == [] {
        return [];
      }
      var text := Joined(kept);
      var matched := automaton.Search(text);
      FoundPatterns(records, text);
      if matched == {} {
        var chinese := Concat(CjkRuns(text));
        matched := automaton.Search(chinese);
        FoundPatterns(records, chinese);
      }
      assert matched == HitSet(records, text);
      if matched == {} {
        return [];
      }
      result := Rank(text, matched);
    }

    /** The rest of match_strategy once hits were found: score them, sort by
        score and return their rows. */
    method Rank(text: string, matched: set<int>) returns (result: seq<Record>)
      requires Valid() && forall i :: i in matched ==> 0 <= i < |records| && Eligible(records[i])
      ensures forall k :: 0 <= k < |Ranked(records, text, matched)| ==>
                0 <= Ranked(records, text, matched)[k].id < |records|
      ensures result == Records(records, Ranked(records, text, matched))
    {
      RankedEntries(records, text, matched);
      var ids := AscendingBelow(matched, |records|);
      var scored := ScoreHits(text, ids);
      assert SortDesc(scored) == Ranked(records, text, matched);
      result := Records(records, SortDesc(scored));
    }

    /** The scoring loop of match_strategy: look each matched index up in
        index_pattern_map and score its name against the recognized text. */
    method ScoreHits(text: string, ids: seq<int>) returns (scored: seq<Scored>)
      requires Valid() && EligibleIds(records, ids)
      ensures scored == Scores(records, text, ids)
    {
      IndexPatternMapSpec(records);
      scored := [];
      for k := 0 to |ids|
        invariant scored == Scores(records, text, ids[..k])
      {
        var index := ids[k];
        var name := if index in indexPattern then indexPattern[index] else [];
        if name != [] {
          var score := 0.0;
          if Contains(text, name) {
            score := score + 10.0;
          }
          var chinese := Concat(CjkRuns(text));
          if Contains(chinese, name) {
            score := score + 8.0;
          }
          scored := scored + [Scored(index, score)];
        }
        assert ids[..k + 1][..k] == ids[..k];
      }
      assert ids[..|ids|] == ids;
    }
  }
}
