/** The strategy table and what build_keyword_index and get_strategy_by_name
    derive from it (data_matcher.py, class DataMatcher).  A record's index is
    its row position, which is what `iterrows` yields for the table that
    load_strategy_data reads. */
module Corpus {
  import opened Wrappers
  import opened Text
  import AutomatonSpec

  /** One row: the columns 类别, 名称, 效果 and 推荐, each possibly missing. */
  datatype Record = Record(category: Option<string>, name: Option<string>,
                           effect: Option<string>, recommendation: Option<string>)

  /** Names shorter than this are not indexed. */
  const MinNameLength: nat := 4

  /** A record whose name becomes a pattern: present and long enough. */
  predicate Eligible(r: Record)
  {
    r.name.Some? && |r.name.value| >= MinNameLength
  }

  /** The (pattern, index) pairs build_keyword_index passes to add_pattern,
      in the order it passes them. */
  function Patterns(rs: seq<Record>): seq<(string, int)>
  {
    if rs == [] then []
    else
      var r := rs[|rs| - 1];
      Patterns(rs[..|rs| - 1]) + (if Eligible(r) then [(r.name.value, |rs| - 1)] else [])
  }

  /** A pair is passed exactly when it is an eligible record's name and index. */
  lemma {:induction false} PatternsMembers(rs: seq<Record>, e: (string, int))
    ensures e in Patterns(rs) <==> 0 <= e.1 < |rs| && Eligible(rs[e.1]) && e.0 == rs[e.1].name.value
    decreases |rs|
  {
    if rs != [] {
      var rs' := rs[..|rs| - 1];
      PatternsMembers(rs', e);
      if 0 <= e.1 < |rs'| {
        assert rs[e.1] == rs'[e.1];
      }
    }
  }

  /** The records whose name occurs in `text`: what the automaton built over
      the table must report. */
  function Hits(rs: seq<Record>, text: string): set<int>
  {
    set i | 0 <= i < |rs| && Eligible(rs[i]) && Contains(text, rs[i].name.value)
  }

  /** Searching the automaton built from the table finds exactly the records
      whose name occurs in the text. */
  lemma FoundPatterns(rs: seq<Record>, text: string)
    ensures AutomatonSpec.Found(Patterns(rs), text) == Hits(rs, text)
  {
    forall i | i in AutomatonSpec.Found(Patterns(rs), text)
      ensures i in Hits(rs, text)
    {
      var e :| e in Patterns(rs) && e.0 != [] && Contains(text, e.0) && e.1 == i;
      PatternsMembers(rs, e);
    }
    forall i | i in Hits(rs, text)
      ensures i in AutomatonSpec.Found(Patterns(rs), text)
    {
      var e := (rs[i].name.value, i);
      PatternsMembers(rs, e);
    }
  }

  /** A record whose name is missing or shorter than four characters is never
      found, whatever the text. */
  lemma ShortNameNeverFound(rs: seq<Record>, text: string, i: int)
    requires 0 <= i < |rs| && !Eligible(rs[i])
    ensures i !in AutomatonSpec.Found(Patterns(rs), text)
  {
    FoundPatterns(rs, text);
  }

  /** Two records sharing an indexed name are both found: add_pattern keeps
      every index given for the same string. */
  lemma DuplicateNamesBothFound(rs: seq<Record>, text: string, i: int, j: int)
    requires 0 <= i < |rs| && 0 <= j < |rs| && Eligible(rs[i]) && rs[j].name == rs[i].name
    requires Contains(text, rs[i].name.value)
    ensures i in AutomatonSpec.Found(Patterns(rs), text) && j in AutomatonSpec.Found(Patterns(rs), text)
  {
    FoundPatterns(rs, text);
  }

  /** index_pattern_map after build_keyword_index. */
  function IndexPatternMap(rs: seq<Record>): map<int, string>
  {
    if rs == [] then map[]
    else
      var r := rs[|rs| - 1];
      var m := IndexPatternMap(rs[..|rs| - 1]);
      if Eligible(r) then m[|rs| - 1 := r.name.value] else m
  }

  /** pattern_index_map after build_keyword_index. */
  function PatternIndexMap(rs: seq<Record>): map<string, int>
  {
    if rs == [] then map[]
    else
      var r := rs[|rs| - 1];
      var m := PatternIndexMap(rs[..|rs| - 1]);
      if Eligible(r) then m[r.name.value := |rs| - 1] else m
  }

  /** index_pattern_map maps exactly the eligible records to their names. */
  lemma {:induction false} IndexPatternMapSpec(rs: seq<Record>)
    ensures forall i :: 0 <= i < |rs| && Eligible(rs[i]) ==> i in IndexPatternMap(rs)
    ensures forall i :: i in IndexPatternMap(rs) ==>
              0 <= i < |rs| && Eligible(rs[i]) && IndexPatternMap(rs)[i] == rs[i].name.value
    decreases |rs|
  {
    if rs != [] {
      var rs' := rs[..|rs| - 1];
      IndexPatternMapSpec(rs');
      assert forall i :: 0 <= i < |rs'| ==> rs[i] == rs'[i];
    }
  }

  /** pattern_index_map maps every indexed name to the LAST eligible record
      carrying it: later rows overwrite earlier ones. */
  lemma {:induction false} PatternIndexMapSpec(rs: seq<Record>)
    ensures forall i :: 0 <= i < |rs| && Eligible(rs[i]) ==> rs[i].name.value in PatternIndexMap(rs)
    ensures forall s :: s in PatternIndexMap(rs) ==>
              var i := PatternIndexMap(rs)[s];
              0 <= i < |rs| && Eligible(rs[i]) && rs[i].name.value == s &&
              forall j :: i < j < |rs| && Eligible(rs[j]) ==> rs[j].name.value != s
    decreases |rs|
  {
    if rs != [] {
      var rs' := rs[..|rs| - 1];
      PatternIndexMapSpec(rs');
      assert forall i :: 0 <= i < |rs'| ==> rs[i] == rs'[i];
    }
  }

  /** Whether a record's name contains `q` as a plain substring; a missing
      name never matches (`na=False`). */
  predicate NameContains(r: Record, q: string)
  {
    r.name.Some? && Contains(r.name.value, q)
  }

  /** get_strategy_by_name: the first record, in table order, whose name
      contains `q`. */
  function FindByName(rs: seq<Record>, q: string): Option<Record>
  {
    if rs == [] then None
    else if NameContains(rs[0], q) then Some(rs[0])
    else FindByName(rs[1..], q)
  }

  /** FindByName answers None exactly when no name contains the query, and
      otherwise the record at the first position whose name does. */
  lemma {:induction false} FindByNameFirst(rs: seq<Record>, q: string)
    ensures FindByName(rs, q).None? <==> forall i :: 0 <= i < |rs| ==> !NameContains(rs[i], q)
    ensures FindByName(rs, q).Some? ==>
              exists i :: 0 <= i < |rs| && NameContains(rs[i], q) && FindByName(rs, q).value == rs[i] &&
                          forall j :: 0 <= j < i ==> !NameContains(rs[j], q)
    decreases |rs|
  {
    if rs != [] && !NameContains(rs[0], q) {
      var rs' := rs[1..];
      FindByNameFirst(rs', q);
      assert forall i :: 0 < i < |rs| ==> rs[i] == rs'[i - 1];
      if FindByName(rs', q).Some? {
        var i :| 0 <= i < |rs'| && NameContains(rs'[i], q) && FindByName(rs', q).value == rs'[i] &&
                 forall j :: 0 <= j < i ==> !NameContains(rs'[j], q);
        assert rs[i + 1] == rs'[i];
        assert forall j :: 0 <= j < i + 1 ==> !NameContains(rs[j], q) by {
          forall j | 0 < j < i + 1
            ensures !NameContains(rs[j], q)
          {
            assert rs[j] == rs'[j - 1];
          }
        }
      } else {
        assert forall i :: 0 <= i < |rs| ==> !NameContains(rs[i], q) by {
          forall i | 0 < i < |rs|
            ensures !NameContains(rs[i], q)
          {
            assert rs[i] == rs'[i - 1];
          }
        }
      }
    }
  }

  /** The empty query finds the first record that has a name at all. */
  lemma FindEmptyName(rs: seq<Record>, i: int)
    requires 0 <= i < |rs| && rs[i].name.Some? && forall j :: 0 <= j < i ==> rs[j].name.None?
    ensures FindByName(rs, []) == Some(rs[i])
  {
    ContainsEmpty(rs[i].name.value);
    FindByNameFirst(rs, []);
  }
}
