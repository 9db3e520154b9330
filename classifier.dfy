/** The query classifier of `classify_query`: a keyword phase that scores
    every registry category by the keywords found in the lower-cased query
    and picks the first category with the highest score, and a fallback that
    turns the label returned by an external semantic classifier into a
    registry category. */
module Classifier {
  import opened Wrappers
  import opened Text
  import opened Registry

  /** One category of the scoring pass that had keyword hits: its name, the
      number of hits (`match_scores[category]`) and the keywords hit, in
      keyword-list order (`keyword_map[category]`). */
  datatype Score = Score(category: string, count: nat, words: seq<Keyword>)

  /** What `classify_query` returns: the category, its email and URL, and the
      matched keywords joined with ", " (or the fallback marker). */
  datatype Classification = Classification(category: string, email: Option<string>, url: Option<string>, matched: string)

  /** The matched-terms value of a result that came from the fallback. */
  const Semantic: string := "semantic"

  // ---------------------------------------------------------------------
  // Keyword scoring
  // ---------------------------------------------------------------------

  /** The keywords of a list that occur in the query `q`, in list order. */
  function Matches(keywords: seq<Keyword>, q: string): (r: seq<Keyword>)
    ensures |r| <= |keywords|
    decreases |keywords|
  {
    if keywords == [] then []
    else
      var last := keywords[|keywords| - 1];
      Matches(keywords[..|keywords| - 1], q) + (if Contains(q, last) then [last] else [])
  }

  /** A keyword is among the matches exactly when it is in the list and
      occurs in the query. */
  lemma {:induction false} MatchesExactly(keywords: seq<Keyword>, q: string)
    ensures forall k :: k in Matches(keywords, q) <==> k in keywords && Contains(q, k)
    decreases |keywords|
  {
    if keywords != [] {
      var init := keywords[..|keywords| - 1];
      MatchesExactly(init, q);
      assert keywords == init + [keywords[|keywords| - 1]];
    }
  }

  /** Matching against the lower-cased query is matching against the query
      as typed with ASCII case ignored. */
  lemma {:induction false} MatchesIgnoreCase(keywords: seq<Keyword>, query: string)
    ensures forall k :: k in Matches(keywords, Lower(query)) <==>
              k in keywords && exists i :: OccursAtIgnoringCase(query, k, i)
  {
    MatchesExactly(keywords, Lower(query));
    forall k: string {
      ContainsLowerIgnoresCase(query, k);
    }
  }

  /** How many of a category's keywords the query contains (`match_count`):
      at most the number of keywords, and 0 exactly when none occurs. */
  function Count(rule: CategoryRule, q: string): (n: nat)
    ensures n <= |rule.keywords|
    ensures n == 0 <==> forall k :: k in rule.keywords ==> !Contains(q, k)
  {
    MatchesExactly(rule.keywords, q);
    var words := Matches(rule.keywords, q);
    assert words != [] ==> words[0] in words;
    |words|
  }

  function ScoreOf(rule: CategoryRule, q: string): Score {
    Score(rule.name, Count(rule, q), Matches(rule.keywords, q))
  }

  /** The categories with at least one keyword hit, in registry order: the
      entries of `match_scores` and `keyword_map` after the scoring pass. */
  function Candidates(rules: seq<CategoryRule>, q: string): (c: seq<Score>)
    ensures |c| <= |rules|
    decreases |rules|
  {
    if rules == [] then []
    else
      var last := ScoreOf(rules[|rules| - 1], q);
      Candidates(rules[..|rules| - 1], q) + (if last.count > 0 then [last] else [])
  }

  /** The registry positions of the categories with a keyword hit, in
      registry order. */
  function Hits(rules: seq<CategoryRule>, q: string): seq<nat>
    decreases |rules|
  {
    if rules == [] then []
    else
      var n := |rules| - 1;
      Hits(rules[..n], q) + (if Count(rules[n], q) > 0 then [n] else [])
  }

  /** The candidates are the scores of the categories at `Hits`, one for one. */
  lemma {:induction false} HitsAreCandidates(rules: seq<CategoryRule>, q: string)
    ensures |Hits(rules, q)| == |Candidates(rules, q)|
    ensures forall p :: 0 <= p < |Hits(rules, q)| ==>
              Hits(rules, q)[p] < |rules| && Count(rules[Hits(rules, q)[p]], q) > 0
              && Candidates(rules, q)[p] == ScoreOf(rules[Hits(rules, q)[p]], q)
    decreases |rules|
  {
    if rules != [] {
      var n := |rules| - 1;
      var init := rules[..n];
      HitsAreCandidates(init, q);
      var idx, prev := Hits(rules, q), Hits(init, q);
      forall p | 0 <= p < |prev|
        ensures idx[p] < |rules| && Count(rules[idx[p]], q) > 0
        ensures Candidates(rules, q)[p] == ScoreOf(rules[idx[p]], q)
      {
        assert idx[p] == prev[p];
        assert init[prev[p]] == rules[prev[p]];
      }
    }
  }

  /** `Hits` is strictly increasing: candidates keep registry order. */
  lemma {:induction false} HitsIncreasing(rules: seq<CategoryRule>, q: string)
    ensures forall p :: 0 <= p < |Hits(rules, q)| ==> Hits(rules, q)[p] < |rules|
    ensures forall p, p' :: 0 <= p < p' < |Hits(rules, q)| ==> Hits(rules, q)[p] < Hits(rules, q)[p']
    decreases |rules|
  {
    if rules != [] {
      var n := |rules| - 1;
      HitsIncreasing(rules[..n], q);
    }
  }

  /** Every category with a keyword hit is at some position of `Hits`. */
  lemma {:induction false} HitsComplete(rules: seq<CategoryRule>, q: string, i: nat) returns (p: nat)
    requires i < |rules| && Count(rules[i], q) > 0
    ensures p < |Hits(rules, q)| && Hits(rules, q)[p] == i
    decreases |rules|
  {
    var n := |rules| - 1;
    var init := rules[..n];
    if i < n {
      assert init[i] == rules[i];
      p := HitsComplete(init, q, i);
    } else {
      p := |Hits(init, q)|;
    }
  }

  /** Every candidate has a positive count equal to its number of words. */
  lemma {:induction false} CandidatesPositive(rules: seq<CategoryRule>, q: string)
    ensures forall s :: s in Candidates(rules, q) ==> s.count > 0 && s.count == |s.words|
  {
    HitsAreCandidates(rules, q);
    forall s | s in Candidates(rules, q) ensures s.count > 0 && s.count == |s.words| {
      var p :| 0 <= p < |Candidates(rules, q)| && Candidates(rules, q)[p] == s;
    }
  }

  /** There is no candidate exactly when no category has a keyword hit. */
  lemma {:induction false} CandidatesEmpty(rules: seq<CategoryRule>, q: string)
    ensures Candidates(rules, q) == [] <==> forall i :: 0 <= i < |rules| ==> Count(rules[i], q) == 0
  {
    HitsAreCandidates(rules, q);
    if Candidates(rules, q) != [] {
      assert Count(rules[Hits(rules, q)[0]], q) > 0;
    } else {
      forall i | 0 <= i < |rules| ensures Count(rules[i], q) == 0 {
        if Count(rules[i], q) > 0 {
          var p := HitsComplete(rules, q, i);
        }
      }
    }
  }

  /** Every candidate is named by a registry entry, and that entry's score is it. */
  lemma {:induction false} CandidateEntry(rules: seq<CategoryRule>, q: string, p: nat)
    requires WellFormed(rules)
    requires p < |Candidates(rules, q)|
    ensures Candidates(rules, q)[p].category in Names(rules)
    ensures ScoreOf(Entry(rules, Candidates(rules, q)[p].category), q) == Candidates(rules, q)[p]
  {
    HitsAreCandidates(rules, q);
    EntryIsUnique(rules, Hits(rules, q)[p]);
  }

  // ---------------------------------------------------------------------
  // Choosing the winner (`max(match_scores, key=match_scores.get)`)
  // ---------------------------------------------------------------------

  /** The position of the first candidate with the highest count: Python's
      `max` keeps the first of equal maxima in iteration order. */
  function FirstMax(c: seq<Score>): (p: nat)
    requires c != []
    ensures p < |c|
    ensures forall j :: 0 <= j < |c| ==> c[j].count <= c[p].count
    ensures forall j :: 0 <= j < p ==> c[j].count < c[p].count
    decreases |c|
  {
    if |c| == 1 then 0
    else
      var p := FirstMax(c[..|c| - 1]);
      if c[|c| - 1].count > c[p].count then |c| - 1 else p
  }

  /** No category with a hit beats the winning candidate, and the ones
      before it in registry order score strictly less. */
  lemma {:induction false} HitBelowWinner(rules: seq<CategoryRule>, q: string, j: nat)
    requires Candidates(rules, q) != []
    requires j < |rules| && Count(rules[j], q) > 0
    ensures var c := Candidates(rules, q);
            Count(rules[j], q) <= c[FirstMax(c)].count
    ensures var c := Candidates(rules, q);
            FirstMax(c) < |Hits(rules, q)| && j < Hits(rules, q)[FirstMax(c)] ==>
              Count(rules[j], q) < c[FirstMax(c)].count
  {
    var c := Candidates(rules, q);
    var p := FirstMax(c);
    HitsAreCandidates(rules, q);
    HitsIncreasing(rules, q);
    var p' := HitsComplete(rules, q, j);
    assert c[p'] == ScoreOf(rules[j], q);
    if j < Hits(rules, q)[p] {
      assert p' < p;
    }
  }

  /** In registry terms, the winning candidate is the score of the first
      category whose count is the highest of all categories. */
  lemma {:induction false} WinnerIsFirstMaximum(rules: seq<CategoryRule>, q: string) returns (m: nat)
    requires Candidates(rules, q) != []
    ensures m < |rules|
    ensures Candidates(rules, q)[FirstMax(Candidates(rules, q))] == ScoreOf(rules[m], q)
    ensures Count(rules[m], q) > 0
    ensures forall j :: 0 <= j < m ==> Count(rules[j], q) < Count(rules[m], q)
    ensures forall j :: 0 <= j < |rules| ==> Count(rules[j], q) <= Count(rules[m], q)
  {
    HitsAreCandidates(rules, q);
    m := Hits(rules, q)[FirstMax(Candidates(rules, q))];
    forall j | 0 <= j < |rules| && Count(rules[j], q) > 0
      ensures Count(rules[j], q) <= Count(rules[m], q)
      ensures j < m ==> Count(rules[j], q) < Count(rules[m], q)
    {
      HitBelowWinner(rules, q, j);
    }
  }

  // ---------------------------------------------------------------------
  // The ranked breakdown (`sorted(match_scores.items(), key=lambda x: -x[1])`)
  // ---------------------------------------------------------------------

  /** Puts `x` in front of the first element whose count is not larger. */
  function InsertByCount(x: Score, t: seq<Score>): (r: seq<Score>)
    ensures multiset(r) == multiset(t) + multiset{x}
  {
    if t == [] || t[0].count <= x.count then [x] + t
    else
      assert t == [t[0]] + t[1..];
      [t[0]] + InsertByCount(x, t[1..])
  }

  /** A stable sort by decreasing count (an insertion sort). */
  function Ranked(s: seq<Score>): (r: seq<Score>)
    ensures multiset(r) == multiset(s)
  {
    if s == [] then []
    else
      assert s == [s[0]] + s[1..];
      InsertByCount(s[0], Ranked(s[1..]))
  }

  predicate SortedByCount(s: seq<Score>) {
    forall i, j :: 0 <= i < j < |s| ==> s[i].count >= s[j].count
  }

  /** The elements of `s` whose count is `n`, in order. */
  function WithCount(s: seq<Score>, n: nat): seq<Score> {
    if s == [] then []
    else (if s[0].count == n then [s[0]] else []) + WithCount(s[1..], n)
  }

  lemma {:induction false} InsertSorted(x: Score, t: seq<Score>)
    requires SortedByCount(t)
    ensures SortedByCount(InsertByCount(x, t))
  {
    if t != [] && t[0].count > x.count {
      InsertSorted(x, t[1..]);
      var r := InsertByCount(x, t[1..]);
      forall e | e in r ensures e.count <= t[0].count {
        assert e in multiset(r);
        if e != x {
          assert e in t[1..];
        }
      }
    }
  }

  /** Inserting `x` adds it to the run of its own count, in front. */
  lemma {:induction false} InsertWithCount(x: Score, t: seq<Score>, n: nat)
    ensures WithCount(InsertByCount(x, t), n) == (if x.count == n then [x] else []) + WithCount(t, n)
  {
    if t != [] && t[0].count > x.count {
      InsertWithCount(x, t[1..], n);
      assert ([t[0]] + InsertByCount(x, t[1..]))[1..] == InsertByCount(x, t[1..]);
      if t[0].count == n {
        assert x.count != n;
      }
    } else {
      assert ([x] + t)[1..] == t;
    }
  }

  /** The breakdown is ordered by count, highest first. */
  lemma {:induction false} RankedSorted(s: seq<Score>)
    ensures SortedByCount(Ranked(s))
  {
    if s != [] {
      RankedSorted(s[1..]);
      InsertSorted(s[0], Ranked(s[1..]));
    }
  }

  /** The sort is stable: categories with equal counts keep their order. */
  lemma {:induction false} RankedStable(s: seq<Score>, n: nat)
    ensures WithCount(Ranked(s), n) == WithCount(s, n)
  {
    if s != [] {
      RankedStable(s[1..], n);
      InsertWithCount(s[0], Ranked(s[1..]), n);
    }
  }

  /** The breakdown lists exactly the candidates, ordered by count and,
      among equal counts, in registry order. */
  lemma {:induction false} BreakdownIsCandidates(rules: seq<CategoryRule>, q: string)
    ensures multiset(Ranked(Candidates(rules, q))) == multiset(Candidates(rules, q))
    ensures SortedByCount(Ranked(Candidates(rules, q)))
    ensures forall n :: WithCount(Ranked(Candidates(rules, q)), n) == WithCount(Candidates(rules, q), n)
  {
    RankedSorted(Candidates(rules, q));
    forall n ensures WithCount(Ranked(Candidates(rules, q)), n) == WithCount(Candidates(rules, q), n) {
      RankedStable(Candidates(rules, q), n);
    }
  }

  // ---------------------------------------------------------------------
  // The fallback
  // ---------------------------------------------------------------------

  /** The category taken from the semantic classifier's reply: the reply
      stripped of white space if that is exactly a registry key, otherwise
      the catch-all; a failed call (`None`) also gives the catch-all. */
  function ResolveLabel(rules: seq<CategoryRule>, reply: Option<string>): (r: string)
    ensures CatchAll in Names(rules) ==> r in Names(rules)
    ensures r == CatchAll || (reply.Some? && r == Strip(reply.value))
    ensures reply.Some? && Strip(reply.value) in Names(rules) ==> r == Strip(reply.value)
  {
    match reply
    case None => CatchAll
    case Some(answer) =>
      var name := Strip(answer);
      if name in Names(rules) then name else CatchAll
  }

  // ---------------------------------------------------------------------
  // The whole classification
  // ---------------------------------------------------------------------

  /** `classify_query(query)` over the registry `rules`, with `reply` standing
      for what the semantic classifier would answer (consulted only when no
      keyword matches). */
  function Classify(rules: seq<CategoryRule>, query: string, reply: Option<string>): (r: Classification)
    requires WellFormed(rules)
    ensures r.category in Names(rules)
    ensures r.email == Entry(rules, r.category).email && r.url == Entry(rules, r.category).url
  {
    var c := Candidates(rules, Lower(query));
    if c != [] then
      var best := c[FirstMax(c)];
      CandidateEntry(rules, Lower(query), FirstMax(c));
      var entry := Entry(rules, best.category);
      Classification(best.category, entry.email, entry.url, Join(best.words, ", "))
    else
      var name := ResolveLabel(rules, reply);
      var entry := Entry(rules, name);
      Classification(name, entry.email, entry.url, Semantic)
  }

  /** When some keyword matches, the result is the registry entry `m` that
      scores highest, the first such in registry order, with its own email
      and URL, and its matched keywords in keyword-list order, joined with
      ", " (a non-empty string from which the keywords can be read back). */
  lemma {:induction false} ClassifyByKeywords(rules: seq<CategoryRule>, query: string, reply: Option<string>) returns (m: nat)
    requires WellFormed(rules)
    requires exists i :: 0 <= i < |rules| && Count(rules[i], Lower(query)) > 0
    ensures m < |rules| && Count(rules[m], Lower(query)) > 0
    ensures forall j :: 0 <= j < m ==> Count(rules[j], Lower(query)) < Count(rules[m], Lower(query))
    ensures forall j :: 0 <= j < |rules| ==> Count(rules[j], Lower(query)) <= Count(rules[m], Lower(query))
    ensures var r := Classify(rules, query, reply);
            r.category == rules[m].name && r.email == rules[m].email && r.url == rules[m].url
    ensures var r := Classify(rules, query, reply);
            r.matched == Join(Matches(rules[m].keywords, Lower(query)), ", ")
            && r.matched != ""
            && Unjoin(r.matched) == Matches(rules[m].keywords, Lower(query))
  {
    var q := Lower(query);
    CandidatesEmpty(rules, q);
    m := WinnerIsFirstMaximum(rules, q);
    EntryIsUnique(rules, m);
    var words := Matches(rules[m].keywords, q);
    assert words != [] && ValidKeyword(words[0]);
    forall j | 0 <= j < |words| ensures ',' !in words[j] {
      assert ValidKeyword(words[j]);
    }
    UnjoinJoin(words);
  }

  /** The converse: the category that scores highest, first in registry
      order, is the one returned. */
  lemma {:induction false} FirstHighestScoreWins(rules: seq<CategoryRule>, query: string, reply: Option<string>, a: nat)
    requires WellFormed(rules)
    requires a < |rules| && Count(rules[a], Lower(query)) > 0
    requires forall j :: 0 <= j < a ==> Count(rules[j], Lower(query)) < Count(rules[a], Lower(query))
    requires forall j :: 0 <= j < |rules| ==> Count(rules[j], Lower(query)) <= Count(rules[a], Lower(query))
    ensures Classify(rules, query, reply).category == rules[a].name
    ensures Classify(rules, query, reply).matched == Join(Matches(rules[a].keywords, Lower(query)), ", ")
  {
    var m := ClassifyByKeywords(rules, query, reply);
  }

  /** When no keyword matches, the fallback decides: the stripped reply if it
      is a registry key, the catch-all otherwise or when the call failed; the
      matched terms are the fallback marker. */
  lemma {:induction false} ClassifyBySemantic(rules: seq<CategoryRule>, query: string, reply: Option<string>)
    requires WellFormed(rules)
    requires forall i :: 0 <= i < |rules| ==> Count(rules[i], Lower(query)) == 0
    ensures Classify(rules, query, reply).matched == Semantic
    ensures reply.Some? && Strip(reply.value) in Names(rules) ==>
              Classify(rules, query, reply).category == Strip(reply.value)
    ensures reply.None? || Strip(reply.value) !in Names(rules) ==>
              Classify(rules, query, reply).category == CatchAll
  {
    CandidatesEmpty(rules, Lower(query));
  }

  /** A category without keywords, such as the catch-all, is never chosen by
      the keyword phase. */
  lemma {:induction false} CatchAllOnlyByFallback(rules: seq<CategoryRule>, query: string, reply: Option<string>)
    requires WellFormed(rules)
    requires Entry(rules, CatchAll).keywords == []
    requires exists i :: 0 <= i < |rules| && Count(rules[i], Lower(query)) > 0
    ensures Classify(rules, query, reply).category != CatchAll
  {
    var m := ClassifyByKeywords(rules, query, reply);
    if rules[m].name == CatchAll {
      EntryIsUnique(rules, m);
      assert false;
    }
  }

  /** In `CATEGORY_KEYWORDS` the catch-all "Other" has no keywords, so a
      query that matches any keyword is never routed to it. */
  lemma {:induction false} OtherNeverMatched(query: string, reply: Option<string>)
    requires exists i :: 0 <= i < |Categories| && Count(Categories[i], Lower(query)) > 0
    ensures WellFormed(Categories) && Classify(Categories, query, reply).category != CatchAll
  {
    RegistryWellFormed();
    CatchAllHasNoKeywords();
    CatchAllOnlyByFallback(Categories, query, reply);
  }

  // ---------------------------------------------------------------------
  // The scoring loop and `classify_query` itself
  // ---------------------------------------------------------------------

  /** The nested scoring loop: for every category, count the keywords found
      in `q` and collect them; keep the categories with a hit. */
  method ScoreCategories(rules: seq<CategoryRule>, q: string) returns (scores: seq<Score>)
    ensures scores == Candidates(rules, q)
  {
    scores := [];
    for i := 0 to |rules|
      invariant scores == Candidates(rules[..i], q)
    {
      var rule := rules[i];
      var matchCount: nat := 0;
      var words: seq<Keyword> := [];
      for j := 0 to |rule.keywords|
        invariant words == Matches(rule.keywords[..j], q)
        invariant matchCount == |words|
      {
        var keyword := rule.keywords[j];
        if Contains(q, keyword) {
          matchCount := matchCount + 1;
          words := words + [keyword];
        }
        assert rule.keywords[..j + 1][..j] == rule.keywords[..j];
      }
      assert rule.keywords[..|rule.keywords|] == rule.keywords;
      if matchCount > 0 {
        scores := scores + [Score(rule.name, matchCount, words)];
      }
      assert rules[..i + 1][..i] == rules[..i];
    }
    assert rules[..|rules|] == rules;
  }

  /** `classify_query` over a well-formed registry: the result, and the
      ranked breakdown shown to the user (empty when the fallback decided). */
  method ClassifyWith(rules: seq<CategoryRule>, query: string, reply: Option<string>)
    returns (result: Classification, breakdown: seq<Score>)
    requires WellFormed(rules)
    ensures result == Classify(rules, query, reply)
    ensures breakdown == Ranked(Candidates(rules, Lower(query)))
  {
    var q := Lower(query);
    var scores := ScoreCategories(rules, q);
    if scores != [] {
      var best := scores[FirstMax(scores)];
      CandidateEntry(rules, q, FirstMax(scores));
      var entry := Entry(rules, best.category);
      result := Classification(best.category, entry.email, entry.url, Join(best.words, ", "));
      breakdown := Ranked(scores);
    } else {
      var name := ResolveLabel(rules, reply);
      var entry := Entry(rules, name);
      result := Classification(name, entry.email, entry.url, Semantic);
      breakdown := [];
    }
  }

  /** `classify_query(query)` over the registry `CATEGORY_KEYWORDS`. */
  method ClassifyQuery(query: string, reply: Option<string>) returns (result: Classification, breakdown: seq<Score>)
    ensures WellFormed(Categories) && result == Classify(Categories, query, reply)
    ensures breakdown == Ranked(Candidates(Categories, Lower(query)))
  {
    RegistryWellFormed();
    result, breakdown := ClassifyWith(Categories, query, reply);
  }
}
