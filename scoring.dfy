/**
 * The keyword capability scorer (utils/scoring.ts). The scorer lower-cases the
 * note, gives every available capability one vote per (rule, keyword) pair
 * whose keyword occurs in the note and whose rule lists it, ranks the
 * capabilities by votes with a stable sort, and answers the top three, or the
 * sentinel "AUTO" when nothing scored.
 */
module Scoring {
  import opened Types
  import opened Sequences
  import opened Strings

  /** The sentinel that tells the caller to let the language model choose. */
  const Auto: string := "AUTO"

  /** How many capabilities the scorer proposes at most. */
  const TopCount: nat := 3

  // ---------------------------------------------------------------------------
  // Votes

  /** Votes that the keywords of one rule give `c` for the lower-cased note. */
  function KeywordVotes(keywords: seq<string>, targets: seq<string>, normalizedText: string, c: string): nat
  {
    if keywords == [] then 0
    else
      KeywordVotes(keywords[..|keywords| - 1], targets, normalizedText, c)
      + (if Contains(normalizedText, Lower(keywords[|keywords| - 1])) then multiset(targets)[c] else 0)
  }

  /** Votes that the whole table `rules` gives `c` for the lower-cased note. */
  function Votes(rules: seq<KeywordMapping>, normalizedText: string, c: string): nat
  {
    if rules == [] then 0
    else
      Votes(rules[..|rules| - 1], normalizedText, c)
      + KeywordVotes(rules[|rules| - 1].keywords, rules[|rules| - 1].capabilities, normalizedText, c)
  }

  /** Keyword `k` of rule `m` is found in the note and the rule lists `c`. */
  ghost predicate Supports(rules: seq<KeywordMapping>, normalizedText: string, c: string, m: int, k: int)
  {
    0 <= m < |rules| && 0 <= k < |rules[m].keywords|
    && Contains(normalizedText, Lower(rules[m].keywords[k]))
    && c in rules[m].capabilities
  }

  lemma {:induction false} KeywordVotesPositive(keywords: seq<string>, targets: seq<string>, normalizedText: string, c: string)
    ensures KeywordVotes(keywords, targets, normalizedText, c) > 0 <==>
      c in targets && exists k :: 0 <= k < |keywords| && Contains(normalizedText, Lower(keywords[k]))
    decreases |keywords|
  {
    if keywords != [] {
      var n := |keywords| - 1;
      KeywordVotesPositive(keywords[..n], targets, normalizedText, c);
      if c in targets && Contains(normalizedText, Lower(keywords[n])) {
      } else if c in targets && exists k :: 0 <= k < n && Contains(normalizedText, Lower(keywords[k])) {
        var k :| 0 <= k < n && Contains(normalizedText, Lower(keywords[k]));
        assert keywords[..n][k] == keywords[k];
      } else if c in targets {
        forall k | 0 <= k < |keywords| ensures !Contains(normalizedText, Lower(keywords[k])) {
          if k < n { assert keywords[..n][k] == keywords[k]; }
        }
      }
    }
  }

  /**
   * A capability scores exactly when some rule that lists it has a keyword in the
   * note. In particular a capability no rule lists never scores.
   */
  lemma {:induction false} VotesPositiveIff(rules: seq<KeywordMapping>, normalizedText: string, c: string)
    ensures Votes(rules, normalizedText, c) > 0 <==> exists m, k :: Supports(rules, normalizedText, c, m, k)
    decreases |rules|
  {
    if rules != [] {
      var n := |rules| - 1;
      var last := rules[n];
      VotesPositiveIff(rules[..n], normalizedText, c);
      KeywordVotesPositive(last.keywords, last.capabilities, normalizedText, c);
      if Votes(rules, normalizedText, c) > 0 {
        if Votes(rules[..n], normalizedText, c) > 0 {
          var m, k :| Supports(rules[..n], normalizedText, c, m, k);
          assert rules[..n][m] == rules[m];
          assert Supports(rules, normalizedText, c, m, k);
        } else {
          var k :| 0 <= k < |last.keywords| && Contains(normalizedText, Lower(last.keywords[k]));
          assert Supports(rules, normalizedText, c, n, k);
        }
      } else {
        forall m, k ensures !Supports(rules, normalizedText, c, m, k) {
          assert Votes(rules[..n], normalizedText, c) == 0;
          assert KeywordVotes(last.keywords, last.capabilities, normalizedText, c) == 0;
          if 0 <= m < n {
            assert rules[..n][m] == rules[m];
            assert !Supports(rules[..n], normalizedText, c, m, k);
          } else if m == n && 0 <= k < |last.keywords| && c in last.capabilities {
            assert !Contains(normalizedText, Lower(last.keywords[k]));
          }
        }
      }
    }
  }

  /** The (rule, keyword) index pairs that give `c` a vote. */
  ghost function Supporters(rules: seq<KeywordMapping>, normalizedText: string, c: string): set<(int, int)>
  {
    set m, k | 0 <= m < |rules| && 0 <= k < |rules[m].keywords| && Supports(rules, normalizedText, c, m, k) :: (m, k)
  }

  /** The pairs `(row, k)` for the keywords `k` of one rule that are found, when the rule lists `c`. */
  ghost function SupportersInRule(keywords: seq<string>, targets: seq<string>, normalizedText: string, c: string, row: int): set<(int, int)>
  {
    set k | 0 <= k < |keywords| && Contains(normalizedText, Lower(keywords[k])) && c in targets :: (row, k)
  }

  lemma {:induction false} KeywordVotesCount(keywords: seq<string>, targets: seq<string>, normalizedText: string, c: string, row: int)
    requires multiset(targets)[c] == if c in targets then 1 else 0
    ensures KeywordVotes(keywords, targets, normalizedText, c) == |SupportersInRule(keywords, targets, normalizedText, c, row)|
    decreases |keywords|
  {
    if keywords != [] {
      var n := |keywords| - 1;
      KeywordVotesCount(keywords[..n], targets, normalizedText, c, row);
      SupportersInRuleSplit(keywords, targets, normalizedText, c, row);
    }
  }

  /** The supporters within one rule are those of all keywords but the last, plus the last one's pair when it votes. */
  lemma SupportersInRuleSplit(keywords: seq<string>, targets: seq<string>, normalizedText: string, c: string, row: int)
    requires keywords != []
    ensures var n := |keywords| - 1;
      var before := SupportersInRule(keywords[..n], targets, normalizedText, c, row);
      var added: set<(int, int)> := if Contains(normalizedText, Lower(keywords[n])) && c in targets then {(row, n)} else {};
      SupportersInRule(keywords, targets, normalizedText, c, row) == before + added && (row, n) !in before
  {
    var n := |keywords| - 1;
    var before := SupportersInRule(keywords[..n], targets, normalizedText, c, row);
    var all := SupportersInRule(keywords, targets, normalizedText, c, row);
    var added: set<(int, int)> := if Contains(normalizedText, Lower(keywords[n])) && c in targets then {(row, n)} else {};
    forall p | p in all ensures p in before + added {
      var k :| 0 <= k < |keywords| && Contains(normalizedText, Lower(keywords[k])) && c in targets && p == (row, k);
      if k < n { assert keywords[..n][k] == keywords[k]; }
    }
    forall p | p in before ensures p in all {
      var k :| 0 <= k < n && Contains(normalizedText, Lower(keywords[..n][k])) && c in targets && p == (row, k);
      assert keywords[..n][k] == keywords[k];
    }
  }

  lemma SupportersSplit(rules: seq<KeywordMapping>, normalizedText: string, c: string)
    requires rules != []
    ensures var n := |rules| - 1;
      var before := Supporters(rules[..n], normalizedText, c);
      var added := SupportersInRule(rules[n].keywords, rules[n].capabilities, normalizedText, c, n);
      Supporters(rules, normalizedText, c) == before + added && before !! added
  {
    var n := |rules| - 1;
    var before := Supporters(rules[..n], normalizedText, c);
    var added := SupportersInRule(rules[n].keywords, rules[n].capabilities, normalizedText, c, n);
    var all := Supporters(rules, normalizedText, c);
    forall p | p in all ensures p in before + added {
      var m, k :| 0 <= m < |rules| && 0 <= k < |rules[m].keywords| && Supports(rules, normalizedText, c, m, k) && p == (m, k);
      if m < n {
        assert rules[..n][m] == rules[m];
        assert Supports(rules[..n], normalizedText, c, m, k);
      }
    }
    forall p | p in before ensures p in all {
      var m, k :| 0 <= m < n && 0 <= k < |rules[..n][m].keywords| && Supports(rules[..n], normalizedText, c, m, k) && p == (m, k);
      assert rules[..n][m] == rules[m];
      assert Supports(rules, normalizedText, c, m, k);
    }
  }

  /**
   * With no capability listed twice in a rule, the votes of `c` are exactly the
   * number of (rule, keyword) pairs whose keyword is found in the note and whose
   * rule lists `c`.
   */
  lemma {:induction false} VotesCountSupporters(rules: seq<KeywordMapping>, normalizedText: string, c: string)
    requires forall m :: 0 <= m < |rules| ==> Distinct(rules[m].capabilities)
    ensures Votes(rules, normalizedText, c) == |Supporters(rules, normalizedText, c)|
    decreases |rules|
  {
    if rules != [] {
      var n := |rules| - 1;
      var last := rules[n];
      assert forall m :: 0 <= m < n ==> rules[..n][m] == rules[m];
      VotesCountSupporters(rules[..n], normalizedText, c);
      DistinctByMultiset(last.capabilities);
      assert c !in last.capabilities ==> multiset(last.capabilities)[c] == 0;
      KeywordVotesCount(last.keywords, last.capabilities, normalizedText, c, n);
      SupportersSplit(rules, normalizedText, c);
    }
  }

  /** A capability that no rule lists never collects a vote. */
  lemma UntargetedNeverScores(rules: seq<KeywordMapping>, normalizedText: string, c: string)
    requires forall m :: m in rules ==> c !in m.capabilities
    ensures Votes(rules, normalizedText, c) == 0
  {
    VotesPositiveIff(rules, normalizedText, c);
    forall m, k ensures !Supports(rules, normalizedText, c, m, k) {
      if 0 <= m < |rules| {
        assert rules[m] in rules;
      }
    }
  }

  lemma {:induction false} KeywordVotesPresenceOnly(keywords: seq<string>, targets: seq<string>, t1: string, t2: string, c: string)
    requires forall k :: k in keywords ==> Contains(t1, Lower(k)) == Contains(t2, Lower(k))
    ensures KeywordVotes(keywords, targets, t1, c) == KeywordVotes(keywords, targets, t2, c)
    decreases |keywords|
  {
    if keywords != [] {
      KeywordVotesPresenceOnly(keywords[..|keywords| - 1], targets, t1, t2, c);
    }
  }

  /**
   * Votes depend only on WHICH keywords occur in the note, not on how often or
   * where: two notes in which the same keywords occur give every capability the
   * same votes.
   */
  lemma {:induction false} VotesPresenceOnly(rules: seq<KeywordMapping>, t1: string, t2: string, c: string)
    requires forall m, k :: m in rules && k in m.keywords ==> Contains(t1, Lower(k)) == Contains(t2, Lower(k))
    ensures Votes(rules, t1, c) == Votes(rules, t2, c)
    decreases |rules|
  {
    if rules != [] {
      var n := |rules| - 1;
      assert forall m :: m in rules[..n] ==> m in rules;
      VotesPresenceOnly(rules[..n], t1, t2, c);
      assert rules[n] in rules;
      KeywordVotesPresenceOnly(rules[n].keywords, rules[n].capabilities, t1, t2, c);
    }
  }

  // ---------------------------------------------------------------------------
  // The score record: keys in first-insertion order

  /** The names of `s` in order of first occurrence: the key order of the score record. */
  function Dedup(s: seq<string>): seq<string>
  {
    if s == [] then []
    else
      var d := Dedup(s[..|s| - 1]);
      if s[|s| - 1] in d then d else d + [s[|s| - 1]]
  }

  /** The record's keys are the available capabilities, each once. */
  lemma {:induction false} DedupSpec(s: seq<string>)
    ensures Distinct(Dedup(s))
    ensures forall c :: c in Dedup(s) <==> c in s
    ensures |Dedup(s)| <= |s|
  {
    if s != [] {
      var n := |s| - 1;
      DedupSpec(s[..n]);
      assert s == s[..n] + [s[n]];
    }
  }

  /** With distinct names, the record's key order is the input order. */
  lemma {:induction false} DedupOfDistinct(s: seq<string>)
    requires Distinct(s)
    ensures Dedup(s) == s
  {
    if s != [] {
      var n := |s| - 1;
      DedupOfDistinct(s[..n]);
      assert s[n] !in s[..n];
      assert s == s[..n] + [s[n]];
    }
  }

  /** Each name of `caps` paired with its votes, in the order of `caps`. */
  function Ranked(rules: seq<KeywordMapping>, normalizedText: string, caps: seq<string>): (r: seq<KeywordScore>)
    ensures |r| == |caps|
    ensures forall i :: 0 <= i < |caps| ==> r[i] == KeywordScore(caps[i], Votes(rules, normalizedText, caps[i]))
  {
    seq(|caps|, i requires 0 <= i < |caps| => KeywordScore(caps[i], Votes(rules, normalizedText, caps[i])))
  }

  // ---------------------------------------------------------------------------
  // Stable sort by descending score

  /** Puts `x` in front of the first entry of `sorted` that does not score more. */
  function InsertByScore(x: KeywordScore, sorted: seq<KeywordScore>): seq<KeywordScore>
  {
    if sorted == [] || x.score >= sorted[0].score then [x] + sorted
    else [sorted[0]] + InsertByScore(x, sorted[1..])
  }

  /** `Array.prototype.sort` with the comparator `b.score - a.score`: stable, highest score first. */
  function SortByScore(s: seq<KeywordScore>): seq<KeywordScore>
  {
    if s == [] then [] else InsertByScore(s[0], SortByScore(s[1..]))
  }

  ghost predicate SortedByScore(s: seq<KeywordScore>)
  {
    forall i, j :: 0 <= i < j < |s| ==> s[i].score >= s[j].score
  }

  /** The entries of `s` that score exactly `v`, in their order in `s`. */
  function WithScore(s: seq<KeywordScore>, v: nat): seq<KeywordScore>
  {
    if s == [] then [] else (if s[0].score == v then [s[0]] else []) + WithScore(s[1..], v)
  }

  lemma {:induction false} InsertByScorePermutes(x: KeywordScore, sorted: seq<KeywordScore>)
    ensures multiset(InsertByScore(x, sorted)) == multiset(sorted) + multiset{x}
    decreases |sorted|
  {
    if sorted != [] && x.score < sorted[0].score {
      InsertByScorePermutes(x, sorted[1..]);
      assert sorted == [sorted[0]] + sorted[1..];
    }
  }

  lemma {:induction false} InsertByScoreSorted(x: KeywordScore, sorted: seq<KeywordScore>)
    requires SortedByScore(sorted)
    ensures SortedByScore(InsertByScore(x, sorted))
    decreases |sorted|
  {
    if sorted != [] && x.score < sorted[0].score {
      var tail := sorted[1..];
      InsertByScoreSorted(x, tail);
      InsertByScorePermutes(x, tail);
      var inserted := InsertByScore(x, tail);
      var r := [sorted[0]] + inserted;
      forall j | 0 < j < |r| ensures sorted[0].score >= r[j].score {
        assert r[j] == inserted[j - 1];
        assert inserted[j - 1] in multiset(inserted);
        if inserted[j - 1] != x {
          assert inserted[j - 1] in multiset(tail);
          var k :| 0 <= k < |tail| && tail[k] == inserted[j - 1];
          assert sorted[k + 1] == tail[k];
        }
      }
    }
  }

  lemma {:induction false} InsertByScoreWithScore(x: KeywordScore, sorted: seq<KeywordScore>, v: nat)
    ensures WithScore(InsertByScore(x, sorted), v) == (if x.score == v then [x] else []) + WithScore(sorted, v)
    decreases |sorted|
  {
    var hx := if x.score == v then [x] else [];
    if sorted == [] || x.score >= sorted[0].score {
      assert ([x] + sorted)[0] == x && ([x] + sorted)[1..] == sorted;
    } else {
      var tail := sorted[1..];
      var ins := InsertByScore(x, tail);
      var h0 := if sorted[0].score == v then [sorted[0]] else [];
      assert ([sorted[0]] + ins)[0] == sorted[0] && ([sorted[0]] + ins)[1..] == ins;
      calc {
        WithScore(InsertByScore(x, sorted), v);
        WithScore([sorted[0]] + ins, v);
        h0 + WithScore(ins, v);
        { InsertByScoreWithScore(x, tail, v); }
        h0 + (hx + WithScore(tail, v));
        { assert h0 == [] || hx == []; }
        hx + (h0 + WithScore(tail, v));
        hx + WithScore(sorted, v);
      }
    }
  }

  /**
   * The sort returns a permutation of its input, ordered by non-increasing
   * score, and keeps the relative order of entries with equal scores.
   */
  lemma {:induction false} SortByScoreSpec(s: seq<KeywordScore>)
    ensures SortedByScore(SortByScore(s))
    ensures multiset(SortByScore(s)) == multiset(s)
    ensures forall v :: WithScore(SortByScore(s), v) == WithScore(s, v)
  {
    if s != [] {
      SortByScoreSpec(s[1..]);
      InsertByScorePermutes(s[0], SortByScore(s[1..]));
      InsertByScoreSorted(s[0], SortByScore(s[1..]));
      assert s == [s[0]] + s[1..];
      forall v ensures WithScore(SortByScore(s), v) == WithScore(s, v) {
        InsertByScoreWithScore(s[0], SortByScore(s[1..]), v);
      }
    }
  }

  /** `x` scores `v` and occurs in `s` exactly when it occurs in the entries of `s` that score `v`. */
  lemma {:induction false} WithScoreMembers(s: seq<KeywordScore>, v: nat, x: KeywordScore)
    ensures x in WithScore(s, v) <==> x in s && x.score == v
  {
    if s != [] {
      WithScoreMembers(s[1..], v, x);
      assert s == [s[0]] + s[1..];
    }
  }

  /** Two entries scoring `v` keep their relative order among the entries that score `v`... */
  lemma {:induction false} WithScoreKeepsOrder(s: seq<KeywordScore>, v: nat, i: int, j: int)
    requires 0 <= i < j < |s| && s[i].score == v && s[j].score == v
    ensures Precedes(WithScore(s, v), s[i], s[j])
  {
    var rest := WithScore(s[1..], v);
    if i == 0 {
      WithScoreMembers(s[1..], v, s[j]);
      assert s[j] == s[1..][j - 1];
      var q :| 0 <= q < |rest| && rest[q] == s[j];
      assert WithScore(s, v) == [s[0]] + rest;
      assert WithScore(s, v)[0] == s[i] && WithScore(s, v)[q + 1] == s[j];
    } else {
      WithScoreKeepsOrder(s[1..], v, i - 1, j - 1);
      var p, q :| 0 <= p < q < |rest| && rest[p] == s[i] && rest[q] == s[j];
      var pre := if s[0].score == v then [s[0]] else [];
      assert WithScore(s, v) == pre + rest;
      assert WithScore(s, v)[|pre| + p] == s[i] && WithScore(s, v)[|pre| + q] == s[j];
    }
  }

  /** ... and an order among the entries scoring `v` is an order in the whole sequence. */
  lemma {:induction false} WithScoreOrderIsOrder(s: seq<KeywordScore>, v: nat, x: KeywordScore, y: KeywordScore)
    requires Precedes(WithScore(s, v), x, y)
    ensures Precedes(s, x, y)
  {
    var rest := WithScore(s[1..], v);
    var pre := if s[0].score == v then [s[0]] else [];
    assert WithScore(s, v) == pre + rest;
    var p, q :| 0 <= p < q < |pre + rest| && (pre + rest)[p] == x && (pre + rest)[q] == y;
    if p < |pre| {
      assert x == s[0];
      assert y in rest;
      WithScoreMembers(s[1..], v, y);
      var k :| 0 <= k < |s[1..]| && s[1..][k] == y;
      assert s[0] == x && s[k + 1] == y;
    } else {
      assert rest[p - |pre|] == x && rest[q - |pre|] == y;
      WithScoreOrderIsOrder(s[1..], v, x, y);
      var a, b :| 0 <= a < b < |s[1..]| && s[1..][a] == x && s[1..][b] == y;
      assert s[a + 1] == x && s[b + 1] == y;
    }
  }

  // ---------------------------------------------------------------------------
  // The result

  /** The capability names of `s`, in order. */
  function Names(s: seq<KeywordScore>): (r: seq<string>)
    ensures |r| == |s|
    ensures forall i :: 0 <= i < |s| ==> r[i] == s[i].capability
  {
    seq(|s|, i requires 0 <= i < |s| => s[i].capability)
  }

  /** The ranking the scorer sorts: every key of the score record with its votes. */
  function Ranking(rules: seq<KeywordMapping>, text: string, availableCapabilities: seq<string>): seq<KeywordScore>
  {
    SortByScore(Ranked(rules, Lower(text), Dedup(availableCapabilities)))
  }

  /**
   * What `calculateTopCapabilities` returns for the rule table `rules`: "AUTO"
   * when the best score is zero, otherwise the first three of the ranking.
   */
  function TopCapabilities(rules: seq<KeywordMapping>, text: string, availableCapabilities: seq<string>): seq<string>
  {
    var sorted := Ranking(rules, text, availableCapabilities);
    if |sorted| > 0 && sorted[0].score == 0 then [Auto]
    else Names(sorted[..Min(TopCount, |sorted|)])
  }

  /** The votes the scorer gives capability `c` for `text`. */
  function Score(rules: seq<KeywordMapping>, text: string, c: string): nat
  {
    Votes(rules, Lower(text), c)
  }

  /** Some available capability collected a vote. */
  ghost predicate AnyScore(rules: seq<KeywordMapping>, text: string, availableCapabilities: seq<string>)
  {
    exists c :: c in availableCapabilities && Score(rules, text, c) > 0
  }

  /** Facts about the sorted ranking that every property of the result rests on. */
  lemma RankingFacts(rules: seq<KeywordMapping>, text: string, availableCapabilities: seq<string>)
    ensures var d := Dedup(availableCapabilities);
      var sorted := Ranking(rules, text, availableCapabilities);
      && |sorted| == |d|
      && SortedByScore(sorted)
      && (forall v :: WithScore(sorted, v) == WithScore(Ranked(rules, Lower(text), d), v))
      && (forall e :: e in sorted <==> e.capability in availableCapabilities && e.score == Score(rules, text, e.capability))
      && Distinct(Names(sorted))
  {
    var nt := Lower(text);
    var d := Dedup(availableCapabilities);
    var ranked := Ranked(rules, nt, d);
    var sorted := SortByScore(ranked);
    DedupSpec(availableCapabilities);
    SortByScoreSpec(ranked);
    assert |sorted| == |multiset(sorted)| == |multiset(ranked)| == |ranked|;
    forall e ensures e in sorted <==> e.capability in availableCapabilities && e.score == Score(rules, text, e.capability) {
      assert e in sorted <==> e in multiset(ranked);
      if e.capability in availableCapabilities && e.score == Score(rules, text, e.capability) {
        var p :| 0 <= p < |d| && d[p] == e.capability;
        assert ranked[p] == e;
      }
    }
    assert Distinct(ranked);
    DistinctByMultiset(ranked);
    DistinctByMultiset(sorted);
    forall i, j | 0 <= i < j < |sorted| ensures Names(sorted)[i] != Names(sorted)[j] {
      assert sorted[i] in sorted && sorted[j] in sorted;
      assert sorted[i] != sorted[j];
    }
  }

  /** With no available capability the record is empty and so is the answer: no "AUTO". */
  lemma TopCapabilitiesEmpty(rules: seq<KeywordMapping>, text: string)
    ensures TopCapabilities(rules, text, []) == []
  {
  }

  /**
   * The answer is the sentinel "AUTO" alone when some capability is available
   * and none collected a vote.
   */
  lemma TopCapabilitiesDefer(rules: seq<KeywordMapping>, text: string, availableCapabilities: seq<string>)
    requires availableCapabilities != []
    requires !AnyScore(rules, text, availableCapabilities)
    ensures TopCapabilities(rules, text, availableCapabilities) == [Auto]
  {
    RankingFacts(rules, text, availableCapabilities);
    DedupSpec(availableCapabilities);
    var sorted := Ranking(rules, text, availableCapabilities);
    assert availableCapabilities[0] in Dedup(availableCapabilities);
    assert sorted[0] in sorted;
  }

  /** When some capability collected a vote the answer is the names of the ranking's first entries. */
  lemma AnswerIsTopOfRanking(rules: seq<KeywordMapping>, text: string, availableCapabilities: seq<string>)
    requires AnyScore(rules, text, availableCapabilities)
    ensures var sorted := Ranking(rules, text, availableCapabilities);
      var r := TopCapabilities(rules, text, availableCapabilities);
      && |sorted| == |Dedup(availableCapabilities)|
      && |r| == Min(TopCount, |sorted|)
      && forall i :: 0 <= i < |r| ==> r[i] == sorted[i].capability && Score(rules, text, r[i]) == sorted[i].score
  {
    RankingFacts(rules, text, availableCapabilities);
    var sorted := Ranking(rules, text, availableCapabilities);
    var c0 :| c0 in availableCapabilities && Score(rules, text, c0) > 0;
    var e0 := KeywordScore(c0, Score(rules, text, c0));
    assert e0 in sorted;
    var p0 :| 0 <= p0 < |sorted| && sorted[p0] == e0;
    assert sorted[0].score >= e0.score > 0;
    var k := Min(TopCount, |sorted|);
    var r := TopCapabilities(rules, text, availableCapabilities);
    assert r == Names(sorted[..k]);
    forall i | 0 <= i < |r| ensures r[i] == sorted[i].capability && Score(rules, text, r[i]) == sorted[i].score {
      assert sorted[i] in sorted;
    }
  }

  /**
   * When some capability collected a vote the answer is the ranking's first
   * min(3, number of distinct available names) names: available, none repeated,
   * by non-increasing votes, none beaten by a capability left out.
   */
  lemma TopCapabilitiesSelection(rules: seq<KeywordMapping>, text: string, availableCapabilities: seq<string>)
    requires AnyScore(rules, text, availableCapabilities)
    ensures var r := TopCapabilities(rules, text, availableCapabilities);
      && |r| == Min(TopCount, |Dedup(availableCapabilities)|)
      && (forall x :: x in r ==> x in availableCapabilities)
      && Distinct(r)
      && (forall i, j :: 0 <= i < j < |r| ==> Score(rules, text, r[i]) >= Score(rules, text, r[j]))
      && (forall c, x :: c in availableCapabilities && c !in r && x in r ==>
            Score(rules, text, c) <= Score(rules, text, x))
  {
    RankingFacts(rules, text, availableCapabilities);
    AnswerIsTopOfRanking(rules, text, availableCapabilities);
    var sorted := Ranking(rules, text, availableCapabilities);
    var r := TopCapabilities(rules, text, availableCapabilities);
    forall x | x in r ensures x in availableCapabilities {
      var i :| 0 <= i < |r| && r[i] == x;
      assert sorted[i] in sorted;
    }
    assert Distinct(r) by {
      forall i, j | 0 <= i < j < |r| ensures r[i] != r[j] {
        assert Names(sorted)[i] != Names(sorted)[j];
      }
    }
    forall c, x | c in availableCapabilities && c !in r && x in r
      ensures Score(rules, text, c) <= Score(rules, text, x)
    {
      var e := KeywordScore(c, Score(rules, text, c));
      assert e in sorted;
      var p :| 0 <= p < |sorted| && sorted[p] == e;
      var i :| 0 <= i < |r| && r[i] == x;
      assert p >= |r|;
    }
  }

  /** Two entries of the ranking with equal votes are in the order of the record's keys. */
  lemma RankingKeepsTies(rules: seq<KeywordMapping>, text: string, availableCapabilities: seq<string>, i: int, j: int)
    requires var sorted := Ranking(rules, text, availableCapabilities);
      0 <= i < j < |sorted| && sorted[i].score == sorted[j].score
    ensures var sorted := Ranking(rules, text, availableCapabilities);
      Precedes(Dedup(availableCapabilities), sorted[i].capability, sorted[j].capability)
  {
    RankingFacts(rules, text, availableCapabilities);
    var d := Dedup(availableCapabilities);
    var ranked := Ranked(rules, Lower(text), d);
    var sorted := Ranking(rules, text, availableCapabilities);
    var v := sorted[i].score;
    WithScoreKeepsOrder(sorted, v, i, j);
    WithScoreOrderIsOrder(ranked, v, sorted[i], sorted[j]);
    var p, q :| 0 <= p < q < |ranked| && ranked[p] == sorted[i] && ranked[q] == sorted[j];
    assert d[p] == sorted[i].capability && d[q] == sorted[j].capability;
  }

  /**
   * Ties keep the order of the available list: two answered capabilities with
   * equal votes appear in the order of their first occurrence in the list, and
   * a capability left out with the same votes as an answered one comes after it
   * in the list.
   */
  lemma TopCapabilitiesStable(rules: seq<KeywordMapping>, text: string, availableCapabilities: seq<string>)
    requires AnyScore(rules, text, availableCapabilities)
    ensures var r := TopCapabilities(rules, text, availableCapabilities);
      forall i, j :: 0 <= i < j < |r| && Score(rules, text, r[i]) == Score(rules, text, r[j]) ==>
        Precedes(Dedup(availableCapabilities), r[i], r[j])
    ensures var r := TopCapabilities(rules, text, availableCapabilities);
      forall x, c :: x in r && c in availableCapabilities && c !in r && Score(rules, text, x) == Score(rules, text, c) ==>
        Precedes(Dedup(availableCapabilities), x, c)
  {
    RankingFacts(rules, text, availableCapabilities);
    AnswerIsTopOfRanking(rules, text, availableCapabilities);
    var sorted := Ranking(rules, text, availableCapabilities);
    var r := TopCapabilities(rules, text, availableCapabilities);
    var k := |r|;
    forall i, j | 0 <= i < j < |r| && Score(rules, text, r[i]) == Score(rules, text, r[j])
      ensures Precedes(Dedup(availableCapabilities), r[i], r[j])
    {
      RankingKeepsTies(rules, text, availableCapabilities, i, j);
    }
    forall x, c | x in r && c in availableCapabilities && c !in r && Score(rules, text, x) == Score(rules, text, c)
      ensures Precedes(Dedup(availableCapabilities), x, c)
    {
      var i :| 0 <= i < |r| && r[i] == x;
      assert sorted[i] in sorted;
      var e := KeywordScore(c, Score(rules, text, c));
      assert e in sorted;
      var j :| 0 <= j < |sorted| && sorted[j] == e;
      assert j >= k;
      RankingKeepsTies(rules, text, availableCapabilities, i, j);
    }
  }

  /** Notes that differ only in the case of their letters get the same answer. */
  lemma TopCapabilitiesIgnoresCase(rules: seq<KeywordMapping>, t1: string, t2: string, availableCapabilities: seq<string>)
    requires |t1| == |t2|
    requires forall i :: 0 <= i < |t1| ==> LowerChar(t1[i]) == LowerChar(t2[i])
    ensures TopCapabilities(rules, t1, availableCapabilities) == TopCapabilities(rules, t2, availableCapabilities)
  {
    assert Lower(t1) == Lower(t2);
  }

  /**
   * The answer depends only on which keywords the note contains: repeating a
   * keyword, or adding text that holds no new keyword, changes nothing.
   */
  lemma TopCapabilitiesPresenceOnly(rules: seq<KeywordMapping>, t1: string, t2: string, availableCapabilities: seq<string>)
    requires forall m, k :: m in rules && k in m.keywords ==>
      Contains(Lower(t1), Lower(k)) == Contains(Lower(t2), Lower(k))
    ensures TopCapabilities(rules, t1, availableCapabilities) == TopCapabilities(rules, t2, availableCapabilities)
  {
    var d := Dedup(availableCapabilities);
    forall c ensures Votes(rules, Lower(t1), c) == Votes(rules, Lower(t2), c) {
      VotesPresenceOnly(rules, Lower(t1), Lower(t2), c);
    }
    assert Ranked(rules, Lower(t1), d) == Ranked(rules, Lower(t2), d);
  }

  // ---------------------------------------------------------------------------
  // The scorer itself

  /**
   * One rule's pass of the scoring loop: for every keyword found in the note,
   * one vote to each target that is a key of the record.
   */
  method AddVotes(scores: map<string, nat>, mapping: KeywordMapping, normalizedText: string)
    returns (updated: map<string, nat>)
    ensures updated.Keys == scores.Keys
    ensures forall c :: c in updated ==>
      updated[c] == scores[c] + KeywordVotes(mapping.keywords, mapping.capabilities, normalizedText, c)
  {
    updated := scores;
    var k := 0;
    while k < |mapping.keywords|
      invariant 0 <= k <= |mapping.keywords|
      invariant updated.Keys == scores.Keys
      invariant forall c :: c in updated ==>
        updated[c] == scores[c] + KeywordVotes(mapping.keywords[..k], mapping.capabilities, normalizedText, c)
    {
      var keyword := mapping.keywords[k];
      ghost var before := updated;
      if Contains(normalizedText, Lower(keyword)) {
        var t := 0;
        while t < |mapping.capabilities|
          invariant 0 <= t <= |mapping.capabilities|
          invariant updated.Keys == scores.Keys
          invariant forall c :: c in updated ==> updated[c] == before[c] + multiset(mapping.capabilities[..t])[c]
        {
          var targetCap := mapping.capabilities[t];
          assert mapping.capabilities[..t + 1] == mapping.capabilities[..t] + [targetCap];
          if targetCap in updated {
            updated := updated[targetCap := updated[targetCap] + 1];
          }
          t := t + 1;
        }
        assert mapping.capabilities[..t] == mapping.capabilities;
      }
      assert mapping.keywords[..k + 1][..k] == mapping.keywords[..k];
      k := k + 1;
    }
    assert mapping.keywords[..k] == mapping.keywords;
  }

  /**
   * `calculateTopCapabilities`: builds the score record key by key, adds the
   * votes rule by rule, then sorts, checks for the all-zero case and takes the
   * first three. The rule table it is closed over is passed as `rules`; the
   * application passes `Constants.KeywordMappings`.
   */
  method CalculateTopCapabilities(rules: seq<KeywordMapping>, text: string, availableCapabilities: seq<string>)
    returns (r: seq<string>)
    ensures r == TopCapabilities(rules, text, availableCapabilities)
  {
    var normalizedText := Lower(text);
    // The record: its values, and its keys in insertion order.
    var scores: map<string, nat> := map[];
    var keyOrder: seq<string> := [];

    var i := 0;
    while i < |availableCapabilities|
      invariant 0 <= i <= |availableCapabilities|
      invariant keyOrder == Dedup(availableCapabilities[..i])
      invariant forall c :: c in scores <==> c in keyOrder
      invariant forall c :: c in scores ==> scores[c] == 0
    {
      var cap := availableCapabilities[i];
      assert availableCapabilities[..i + 1] == availableCapabilities[..i] + [cap];
      if cap !in scores {
        keyOrder := keyOrder + [cap];
      }
      scores := scores[cap := 0];
      i := i + 1;
    }
    assert availableCapabilities[..i] == availableCapabilities;

    var m := 0;
    while m < |rules|
      invariant 0 <= m <= |rules|
      invariant forall c :: c in scores <==> c in keyOrder
      invariant forall c :: c in scores ==> scores[c] == Votes(rules[..m], normalizedText, c)
    {
      scores := AddVotes(scores, rules[m], normalizedText);
      assert rules[..m + 1][..m] == rules[..m];
      m := m + 1;
    }
    assert rules[..m] == rules;

    var ranked := seq(|keyOrder|, j requires 0 <= j < |keyOrder| && keyOrder[j] in scores =>
      KeywordScore(keyOrder[j], scores[keyOrder[j]]));
    assert ranked == Ranked(rules, normalizedText, Dedup(availableCapabilities));
    var sortedScores := SortByScore(ranked);
    if |sortedScores| > 0 && sortedScores[0].score == 0 {
      return [Auto];
    }
    r := Names(sortedScores[..Min(TopCount, |sortedScores|)]);
  }
}
