# Strategy matcher: a Dafny model

This project models the strategy-matching engine of `data_matcher.py`. The
engine takes the text pieces an OCR engine reads off the screen, each with a
confidence score, and finds the rows of a strategy table whose names occur in
that text. It has four parts:

- **`AhoCorasick`**: a multi-pattern string matcher.
  - `add_pattern` builds a character trie.
  - `build_fail_links` gives every node a failure link by breadth-first search and merges output lists along those links.
  - `search` makes one pass over a text and collects the indices of all patterns that occur in it.
- **`build_keyword_index`**: makes every record name of four or more characters a pattern, tagged with its row index. It also fills `pattern_index_map` (name to index) and `index_pattern_map` (index to name).
- **`match_strategy`**, which runs these steps:
  1. Drop the fragments below `min_score` and join the rest.
  2. Search the joined text. If nothing is found, search again on its CJK-only reduction: the characters in U+4E00..U+9FA5.
  3. Score each hit 10 if its name occurs in the joined text, plus 8 if it occurs in the reduction.
  4. Sort by score, descending.
- **The fallbacks**:
  - `calculate_similarity` is the Jaccard index of the sets of maximal CJK runs.
  - `fuzzy_match` keeps the rows whose name plus effect is similar enough to the text, most similar first.
  - `get_strategy_by_name` returns the first row whose name contains a query.

Files, one Dafny module each:

- `wrappers.dfy`: an `Option` type, for missing table cells and for `None` results.
- `text.dfy`:
  - Python's substring test `p in t`, stated by where each occurrence ends.
  - Suffixes.
  - The character class `[一-龥]`, `re.findall(r'[一-龥]+', t)` as `CjkRuns`, and `''.join`.
- `automaton_spec.dfy`: what the automaton must compute, and the facts behind its proofs:
  - `Found`: the indices of the patterns that occur in a text.
  - `FailTarget`: the longest proper suffix that is in the trie.
  - `Ending`: the patterns that are suffixes of a string.
  - Facts about the trie, the suffixes and the breadth-first schedule.
- `automaton.dfy`: `class Automaton`.
  - The trie is an arena: slot `i` of the fields `children`, `fail` and `output` is one `AhoCorasickNode`. Slot 0 is the root, and a failure link of `-1` stands for `None`.
  - Ghost fields record the string of each node (`word`), the node of each string (`idx`) and the `(pattern, index)` pairs added so far (`added`).
  - The methods follow the Python loops one for one. The queue of `build_fail_links` is a sequence. Each node's child map is iterated in an unspecified order.
- `corpus.dfy`:
  - the table as a `seq<Record>`;
  - the patterns `build_keyword_index` adds;
  - the reference answer `Hits` for a search;
  - the two maps;
  - `get_strategy_by_name`.
- `ranking.dfy`: sorting by descending key as a stable insertion sort, with its permutation, order and stability lemmas.
- `matcher.dfy`:
  - the fragment filter and join;
  - scoring; `ExactMatch`, the result of `match_strategy`;
  - the Jaccard similarity; `FuzzyMatch`;
  - `class DataMatcher`, which holds the table, the automaton and the two maps. Its methods `BuildKeywordIndex` and `MatchStrategy` are proved to produce the maps the corpus functions define and the rows `ExactMatch` defines.

The definitions that the lemmas in the table below are about, with the code they model:

- `Corpus.FindByName`: get_strategy_by_name (data_matcher.py:344-368).
- `Matcher.Kept`: the `min_score` filter (data_matcher.py:200).
- `Matcher.Joined`: the join of the kept texts (data_matcher.py:205).
- `Matcher.ChineseText`: the CJK-only reduction (data_matcher.py:213).
- `Matcher.ScoreOf`: the score of a hit (data_matcher.py:232-241).
- `Matcher.ExactMatch`: the result of match_strategy (data_matcher.py:186-266).
- `Matcher.StrategyText`: the name-plus-effect comparison string (data_matcher.py:292-296).
- `Matcher.FuzzyMatch`: the result of fuzzy_match (data_matcher.py:268-318).

Inputs are parameters:

- The table is the constructor's argument. It stands for what `load_strategy_data` reads. A table that fails to load is an empty table, which behaves as the source does: no automaton, so every query answers `[]` or `None`.
- OCR results are a sequence of `Fragment(text, score)`.
- Confidence scores and similarities are Dafny `real`s.

## Model

| member | source | states |
|---|---|---|
| AhoCorasick.Automaton.constructor | data_matcher.py:25-27 | a fresh automaton is a root alone, holding no pattern and no string but the empty one |
| AhoCorasick.Automaton.AddChild | data_matcher.py:38-39 | the `node.children[char] = TrieNode()` step: the node set grows by exactly one, the new last node has the node's string plus the character, no children, no failure link (-1) and no output, the node's child map gains that character and no other node's child map changes |
| AhoCorasick.Automaton.Descend | data_matcher.py:38-40 | one step down the trie reaches the node of the current string plus the character: when the child exists it is returned and the trie is unchanged; otherwise a new empty last node is created, added under the character and returned |
| AhoCorasick.Automaton.InsertPath | data_matcher.py:36-40 | the walk ends at the node spelling the whole pattern, every prefix of the pattern is now in the trie, and only nodes on the pattern's path change |
| AhoCorasick.Automaton.AddPattern | data_matcher.py:29-41 | the pattern is recorded with its index; the trie gains exactly the pattern's missing prefixes; only the terminal node's output changes, by appending the index; nodes off the path keep their children |
| AhoCorasick.Automaton.FailWalk | data_matcher.py:62-64 | following failure links stops at the longest suffix of the current string that extends by the character inside the trie, or past the root (-1) when no suffix does |
| AhoCorasick.Automaton.LinkChild | data_matcher.py:58-71 | one child gets the node of its longest proper suffix in the trie as failure link (the root when the walk falls off) and its output extended by that node's output; no other node changes |
| AhoCorasick.Automaton.LinkRootChildren | data_matcher.py:50-52 | every child of the root fails to the root and is queued, in breadth-first order; no other node's failure link changes and no output changes |
| AhoCorasick.Automaton.LinkRootChild | data_matcher.py:50-52 | one pass of that loop: the child under the given character is appended to the queue and the order, its failure link becomes the root, and every other slot is unchanged |
| AhoCorasick.Automaton.VisitChild | data_matcher.py:58-71 | the child under the given character, and nothing else, is appended to both the queue and the breadth-first order; it is linked, the schedule and the linked-node invariant are kept, and no other node's failure link or output changes |
| AhoCorasick.Automaton.VisitChildren | data_matcher.py:58-71 | the queue becomes the old queue followed by exactly the dequeued node's children (each child queued, nothing else queued), the already visited prefix of the breadth-first order is unchanged, every queued child is linked, the linked-node invariant is kept, and only those children's failure links and outputs change |
| AhoCorasick.Automaton.VisitNext | data_matcher.py:55-71 | one loop iteration: the head of the queue is dequeued (the visited count grows by one, the visited prefix is unchanged), its children and only they are appended to the rest of the queue and linked, only their failure links and outputs change, and a measure of unseen nodes and queue length strictly drops |
| AhoCorasick.Automaton.DrainQueue | data_matcher.py:55-71 | when the queue runs dry every node but the root carries its final failure link and output |
| AhoCorasick.Automaton.BuildFailLinks | data_matcher.py:43-71 | the trie is unchanged; the root keeps no link; every other node fails to the node of its longest proper suffix in the trie, and its output holds exactly the indices of the non-empty patterns that are suffixes of its string |
| AhoCorasick.Automaton.Goto | data_matcher.py:86-98 | after one more character the current node is the longest suffix of the text read that is in the trie, and the matches collected grow by exactly the patterns ending there |
| AhoCorasick.Automaton.Search | data_matcher.py:73-100 | the result is exactly the set of indices whose (non-empty) pattern occurs as a substring of the text |
| AutomatonSpec.FailTargetUnique | data_matcher.py:61-69 | the failure target of a string is unique, so the link the walk finds is the one the construction must find |
| AutomatonSpec.LinkedShape | data_matcher.py:50-71 | once linked, every non-root node fails to a strictly shallower node, a child of the root fails to the root, and its output holds every pattern that is a suffix of its string |
| AutomatonSpec.MergeOutput | data_matcher.py:69-71 | a node's own patterns together with its failure target's suffix patterns are exactly its suffix patterns, which is why one `extend` suffices |
| AutomatonSpec.FoundSnoc | data_matcher.py:94-98 | the patterns occurring in a text grown by one character are the earlier ones plus those ending at the current node's string |
| Text.ContainsIff | data_matcher.py:235 | the substring test used throughout agrees with "some slice of the text equals the pattern" |
| Text.ContainsTrans | data_matcher.py:235-240 | an occurrence inside an occurrence is an occurrence |
| Text.RunsJoin | data_matcher.py:213 | joining the maximal CJK runs of a text is the same as keeping just its CJK characters |
| Text.RunsSplit | data_matcher.py:331-332 | a non-CJK character splits the list of runs, so runs never cross one |
| Text.RunsOfBlock | data_matcher.py:331-332 | a non-empty all-CJK text is a single run |
| Text.CjkOnlyFixed | data_matcher.py:213 | the CJK-only reduction leaves a text unchanged exactly when all of it is CJK |
| Corpus.PatternsMembers | data_matcher.py:171-181 | a (name, index) pair is added to the automaton exactly when the row at that index has a name of at least four characters |
| Corpus.FoundPatterns | data_matcher.py:171-181 | what the automaton built over the table reports for a text is exactly the rows whose indexed name occurs in the text |
| Corpus.ShortNameNeverFound | data_matcher.py:173-178 | a row whose name is missing or shorter than four characters is never found |
| Corpus.DuplicateNamesBothFound | data_matcher.py:36-41 | two rows with the same indexed name are both found when it occurs |
| Corpus.IndexPatternMapSpec | data_matcher.py:181 | index_pattern_map maps exactly the indexed rows, each to its own name |
| Corpus.PatternIndexMapSpec | data_matcher.py:180 | pattern_index_map maps every indexed name to the last row carrying it |
| Corpus.FindByNameFirst | data_matcher.py:344-368 | get_strategy_by_name answers None exactly when no name contains the query, and otherwise the first row in table order whose name does |
| Corpus.FindEmptyName | data_matcher.py:357-360 | the empty query returns the first row that has a name |
| Ranking.SortDescSpec | data_matcher.py:253 | sorting permutes its input and leaves keys non-increasing |
| Ranking.SortDescStable | data_matcher.py:312 | the sort is stable: input in index order leaves equal keys in index order |
| Ranking.SortDescDistinct | data_matcher.py:253 | sorting indices without repeats yields indices without repeats |
| Ranking.SortDescIds | data_matcher.py:253 | sorting keeps the set of indices and the length |
| Matcher.KeptMembers | data_matcher.py:200 | the filter keeps exactly the fragments at or above the cutoff and never lengthens the list |
| Matcher.KeptTwice | data_matcher.py:200 | filtering at a higher cutoff keeps a sub-list of what a lower cutoff keeps |
| Matcher.JoinedContains | data_matcher.py:205 | every kept fragment occurs whole in the joined text |
| Matcher.ScoresSpec | data_matcher.py:225-250 | each hit is scored 10 for occurring in the text plus 8 for occurring in its CJK-only reduction |
| Matcher.ScoredHits | data_matcher.py:222-250 | the scored indices are exactly the hits, in increasing order |
| Matcher.RankedOrder | data_matcher.py:253 | the ranking holds each hit once, scores non-increasing, equal scores in increasing index order |
| Matcher.RankedEntries | data_matcher.py:222-253 | every ranked entry is a hit carrying its own score |
| Matcher.ExactRankingHits | data_matcher.py:196-253 | match_strategy reports exactly the hits in the joined confident text, or in its CJK-only reduction when the first search finds none; nothing when no fragment passes; each once, best first |
| Matcher.ExactRankingScores | data_matcher.py:222-253 | every reported row is indexed, carries its score, and that score is at least 8 |
| Matcher.ExactMatchNoneKept | data_matcher.py:200-202 | no fragment at or above the cutoff means an empty answer |
| Matcher.FragmentNameFound | data_matcher.py:200-219 | a confident fragment containing an indexed name makes that row part of the answer |
| Matcher.RevengeScenario | test_matcher.py:15-21 | with 复仇心切 in the table, the fragment 送复仇心切 at 0.78 returns that row with the top score 18 |
| Matcher.RaisingCutoffCanAddResults | data_matcher.py:200-219 | raising min_score can turn an empty answer into a non-empty one, because dropping a fragment joins its neighbours |
| Matcher.Jaccard | data_matcher.py:335-342 | the Jaccard index lies in [0, 1] |
| Matcher.JaccardZero | data_matcher.py:335-342 | the Jaccard index is 0 exactly when the sets are disjoint (so also when both are empty) |
| Matcher.Similarity | data_matcher.py:320-342 | calculate_similarity lies in [0, 1] |
| Matcher.SimilarityZero | data_matcher.py:320-342 | the similarity is 0 exactly when the texts share no CJK run |
| Matcher.SimilaritySymmetric | data_matcher.py:335-342 | the similarity is symmetric |
| Matcher.SimilarityToItself | data_matcher.py:331-342 | a text is fully similar to itself exactly when it has a CJK run |
| Matcher.SimilarityOfBlocks | data_matcher.py:331-342 | two different all-CJK texts have similarity 0 |
| Matcher.EmptyRowScoresZero | data_matcher.py:292-299 | a row with neither a name nor an effect has an empty comparison string, so its similarity to any text is 0 |
| Matcher.GluedCells | data_matcher.py:292-299 | name and effect are concatenated without a separator, so an all-CJK name and effect form one run: the name alone scores 0 against the row, name plus effect scores 1 |
| Matcher.FuzzySkipsEmptyRows | data_matcher.py:268-318 | at the default threshold 0.6, fuzzy_match never returns a row whose name and effect are both missing |
| Matcher.AtLeastKeys | data_matcher.py:292-309 | the collected rows come in table order, each with its own similarity, none below the threshold |
| Matcher.AtLeastComplete | data_matcher.py:302-309 | every row whose similarity reaches the threshold is collected |
| Matcher.FuzzyRankingSpec | data_matcher.py:268-318 | fuzzy_match keeps a row exactly when some fragment reaches 0.75 and the row's similarity to the joined text reaches the threshold; each row once, similarity non-increasing, ties in table order, no longer than the table |
| Matcher.DataMatcher.constructor | data_matcher.py:106-117 | the matcher holds the loaded rows and builds its index exactly when there is at least one |
| Matcher.DataMatcher.BuildKeywordIndex | data_matcher.py:158-184 | a fresh linked automaton holds exactly the table's patterns, and both maps equal their definitions over the table |
| Matcher.DataMatcher.IndexRow | data_matcher.py:171-181 | one row is added to the automaton and both maps exactly when its name is present and long enough |
| Matcher.DataMatcher.MatchStrategy | data_matcher.py:186-266 | the answer is ExactMatch of the table and fragments |
| Matcher.DataMatcher.Rank | data_matcher.py:222-266 | the hits, scored and sorted, become their rows |
| Matcher.DataMatcher.ScoreHits | data_matcher.py:225-250 | the scoring loop computes the score of every hit by looking its name up in index_pattern_map |

## Left out

- `load_strategy_data` (data_matcher.py:119-156): reading the CSV with pandas, trying several encodings, and printing. The table is a constructor parameter instead.
- Table cells are strings or missing. A numeric cell that `str()` would turn into digits is not modelled.
- Confidence scores, scores and similarities are exact reals. Floating-point rounding of `len(∩) / len(∪)` is not modelled.
- Corpus.FindByNameFirst: pandas `str.contains` treats the query as a regular expression. The model uses a plain substring test.
- Matcher.RankedOrder: the source iterates a Python set, so the order of equal scores is unspecified. The model fixes increasing row index.
- The order in which `build_fail_links` visits the children of a node is left unspecified with `:|`. All proved properties hold for any order.
- AhoCorasick.Automaton.Search: requires that the failure links are built. AddPattern requires that they are not yet built. The source never adds a pattern after `build_fail_links`, and that case is not modelled.
- The strategy-data `None` case is an empty table with no automaton.
- gui.py, screen_capture.py, ocr_engine.py and main.py are not part of this model. They are UI, window capture, an external OCR process and wiring.

Three natural expectations about match_strategy and calculate_similarity do not hold for the code. The model states what the code does:

- Raising `min_score` keeps a sub-list of the fragments (Matcher.KeptTwice), but it does not shrink the answer. Matcher.RaisingCutoffCanAddResults gives a table and fragments where 0.4 finds nothing and 0.8 finds the row.
- A reported row never scores 0. Every hit occurs in the text that was searched, so it scores at least 8 (Matcher.ExactRankingScores).
- A text without CJK characters has similarity 0, not 1, to itself (Matcher.SimilarityToItself).
