/**
 * What the scorer does with the application's own rule table and vocabularies:
 * the two example notes worked through, and the consequences of the table's
 * shape for every note.
 */
module ScoringFacts {
  import opened Types
  import opened Sequences
  import opened Strings
  import opened Constants
  import opened Scoring

  /**
   * A general-practice note that mentions two communication keywords:
   * "Discussed the plan with the family and explained risks", written in four
   * space-separated chunks.
   */
  const GpNote: string := ("Discussed" + " " + "the plan with the") + " " + ("family" + " " + "and explained risks")

  /** A note that mentions no keyword of the table. */
  const PlainNote: string := "Patient seen, no issues."

  // ---------------------------------------------------------------------------
  // Reading the example notes

  /** The first word is the only one with a capital letter. */
  lemma DiscussedLowered()
    ensures Lower("Discussed") == "discussed"
  {
    var d := Lower("Discussed");
    assert d[0] == 'd' && d[1] == 'i' && d[2] == 's' && d[3] == 'c' && d[4] == 'u';
    assert d[5] == 's' && d[6] == 's' && d[7] == 'e' && d[8] == 'd';
  }

  /** Lower-casing four space-separated chunks lower-cases each chunk. */
  lemma LowerFourChunks(c1: string, c2: string, c3: string, c4: string,
                        l1: string, l2: string, l3: string, l4: string)
    requires Lower(c1) == l1 && Lower(c2) == l2 && Lower(c3) == l3 && Lower(c4) == l4
    ensures Lower((c1 + " " + c2) + " " + (c3 + " " + c4)) == (l1 + " " + l2) + " " + (l3 + " " + l4)
  {
    assert Lower(" ") == " ";
    LowerConcat(c1, " ");
    LowerConcat(c1 + " ", c2);
    LowerConcat(c3, " ");
    LowerConcat(c3 + " ", c4);
    LowerConcat(c1 + " " + c2, " ");
    LowerConcat(c1 + " " + c2 + " ", c3 + " " + c4);
  }

  /** The lower-cased note in four chunks separated by single spaces. */
  lemma GpNoteLowered()
    ensures Lower(GpNote) == ("discussed" + " " + "the plan with the") + " " + ("family" + " " + "and explained risks")
  {
    DiscussedLowered();
    assert IsLowerCase("the plan with the") && IsLowerCase("family") && IsLowerCase("and explained risks");
    LowerCaseFixpoints("the plan with the");
    LowerCaseFixpoints("family");
    LowerCaseFixpoints("and explained risks");
    LowerFourChunks("Discussed", "the plan with the", "family", "and explained risks",
                    "discussed", "the plan with the", "family", "and explained risks");
  }

  /**
   * A needle without spaces is absent from four space-separated chunks when each
   * chunk is written in an alphabet that lacks one of the needle's characters.
   */
  lemma AbsentFromChunks(c1: string, c2: string, c3: string, c4: string,
                         a1: set<char>, a2: set<char>, a3: set<char>, a4: set<char>,
                         kw: string, ch1: char, ch2: char, ch3: char, ch4: char)
    requires Within(c1, a1) && Within(c2, a2) && Within(c3, a3) && Within(c4, a4)
    requires ' ' !in kw
    requires ch1 in kw && ch1 !in a1
    requires ch2 in kw && ch2 !in a2
    requires ch3 in kw && ch3 !in a3
    requires ch4 in kw && ch4 !in a4
    ensures !Contains((c1 + " " + c2) + " " + (c3 + " " + c4), kw)
  {
    OutsideAlphabetNotFound(c1, a1, kw, ch1);
    OutsideAlphabetNotFound(c2, a2, kw, ch2);
    OutsideAlphabetNotFound(c3, a3, kw, ch3);
    OutsideAlphabetNotFound(c4, a4, kw, ch4);
    ContainsAcrossSpace(c1, c2, kw);
    ContainsAcrossSpace(c3, c4, kw);
    ContainsAcrossSpace(c1 + " " + c2, c3 + " " + c4, kw);
  }

  /** The characters of the four chunks of the lower-cased general-practice note. */
  lemma GpChunkAlphabets()
    ensures Within("discussed", {'d', 'i', 's', 'c', 'u', 'e'})
    ensures Within("the plan with the", {'t', 'h', 'e', ' ', 'p', 'l', 'a', 'n', 'w', 'i'})
    ensures Within("family", {'f', 'a', 'm', 'i', 'l', 'y'})
    ensures Within("and explained risks", {'a', 'n', 'd', ' ', 'e', 'x', 'p', 'l', 'i', 'r', 's', 'k'})
  {
  }

  /** The characters of the lower-cased general-practice note. */
  const GpAlphabet: set<char> :=
    {'d', 'i', 's', 'c', 'u', 'e', 't', 'h', ' ', 'p', 'l', 'a', 'n', 'w', 'f', 'm', 'y', 'x', 'r', 'k'}

  lemma GpNoteAlphabet(nt: string)
    requires nt == ("discussed" + " " + "the plan with the") + " " + ("family" + " " + "and explained risks")
    ensures Within(nt, GpAlphabet)
  {
    GpChunkAlphabets();
    var c1, c2, c3, c4 := "discussed", "the plan with the", "family", "and explained risks";
    assert Within(c1, GpAlphabet) && Within(c2, GpAlphabet) && Within(c3, GpAlphabet) && Within(c4, GpAlphabet);
    assert Within(" ", GpAlphabet);
    WithinConcat(c1, " ", GpAlphabet);
    WithinConcat(c1 + " ", c2, GpAlphabet);
    WithinConcat(c3, " ", GpAlphabet);
    WithinConcat(c3 + " ", c4, GpAlphabet);
    WithinConcat(c1 + " " + c2, " ", GpAlphabet);
    WithinConcat(c1 + " " + c2 + " ", c3 + " " + c4, GpAlphabet);
  }

  /** The general-practice note, lower-cased, holds the keywords "discussed" and "explained". */
  lemma GpNoteHolds(nt: string)
    requires nt == ("discussed" + " " + "the plan with the") + " " + ("family" + " " + "and explained risks")
    ensures Contains(nt, "discussed") && Contains(nt, "explained")
  {
    var c1, c2, c3, c4 := "discussed", "the plan with the", "family", "and explained risks";
    assert OccursAt(c1, "discussed", 0);
    ContainsInConcat(c1, " ", "discussed");
    ContainsInConcat(c1 + " ", c2, "discussed");
    ContainsInConcat(c1 + " " + c2, " ", "discussed");
    ContainsInConcat((c1 + " " + c2) + " ", c3 + " " + c4, "discussed");
    assert OccursAt(c4, "explained", 4);
    ContainsInConcat(c3 + " ", c4, "explained");
    ContainsInConcat((c1 + " " + c2) + " ", c3 + " " + c4, "explained");
  }

  /**
   * Sixteen keywords hold a letter ('o', 'v', 'b' or 'g') that the general-practice
   * note lacks; that letter is the character passed to `OutsideAlphabetNotFound`.
   */
  lemma GpNoteLacksLetters(nt: string)
    requires nt == ("discussed" + " " + "the plan with the") + " " + ("family" + " " + "and explained risks")
    ensures !Contains(nt, "consent") && !Contains(nt, "relative") && !Contains(nt, "sbar")
    ensures !Contains(nt, "reviewed bloods") && !Contains(nt, "ecg") && !Contains(nt, "diagnosis")
    ensures !Contains(nt, "antibiotics") && !Contains(nt, "iv") && !Contains(nt, "analgesia")
    ensures !Contains(nt, "discharge") && !Contains(nt, "follow-up")
    ensures !Contains(nt, "confidentiality") && !Contains(nt, "safeguarding")
    ensures !Contains(nt, "handover") && !Contains(nt, "physio") && !Contains(nt, "on-call")
  {
    GpNoteAlphabet(nt);
    var a := GpAlphabet;
    OutsideAlphabetNotFound(nt, a, "consent", 'o');
    OutsideAlphabetNotFound(nt, a, "relative", 'v');
    OutsideAlphabetNotFound(nt, a, "sbar", 'b');
    OutsideAlphabetNotFound(nt, a, "reviewed bloods", 'v');
    OutsideAlphabetNotFound(nt, a, "ecg", 'g');
    OutsideAlphabetNotFound(nt, a, "diagnosis", 'g');
    OutsideAlphabetNotFound(nt, a, "antibiotics", 'b');
    OutsideAlphabetNotFound(nt, a, "iv", 'v');
    OutsideAlphabetNotFound(nt, a, "analgesia", 'g');
    OutsideAlphabetNotFound(nt, a, "discharge", 'g');
    OutsideAlphabetNotFound(nt, a, "follow-up", 'o');
    OutsideAlphabetNotFound(nt, a, "confidentiality", 'o');
    OutsideAlphabetNotFound(nt, a, "safeguarding", 'g');
    OutsideAlphabetNotFound(nt, a, "handover", 'o');
    OutsideAlphabetNotFound(nt, a, "physio", 'o');
    OutsideAlphabetNotFound(nt, a, "on-call", 'o');
  }

  /** The four chunks of the lower-cased general-practice note and their alphabets. */
  ghost predicate GpChunks(c1: string, c2: string, c3: string, c4: string,
                           a1: set<char>, a2: set<char>, a3: set<char>, a4: set<char>)
  {
    && c1 == "discussed" && c2 == "the plan with the" && c3 == "family" && c4 == "and explained risks"
    && a1 == {'d', 'i', 's', 'c', 'u', 'e'}
    && a2 == {'t', 'h', 'e', ' ', 'p', 'l', 'a', 'n', 'w', 'i'}
    && a3 == {'f', 'a', 'm', 'i', 'l', 'y'}
    && a4 == {'a', 'n', 'd', ' ', 'e', 'x', 'p', 'l', 'i', 'r', 's', 'k'}
  }

  /**
   * Seven keywords have all their letters in the general-practice note, but no
   * space-free chunk of it holds all of them: the first three of them.
   *
   * The argument, keyword by keyword: a keyword without spaces can only occur
   * inside one chunk, so it suffices to name, for each of the four chunks, one
   * letter of the keyword that the chunk lacks. The four characters passed to
   * `AbsentFromChunks` are those witnesses, in chunk order; for "differential"
   * they are 'f' (not in "discussed"), 'd' (not in "the plan with the"), 'd'
   * (not in "family") and 'f' (not in "and explained risks").
   */
  lemma GpNoteSplitsFirstKeywords(c1: string, c2: string, c3: string, c4: string,
                                  a1: set<char>, a2: set<char>, a3: set<char>, a4: set<char>)
    requires GpChunks(c1, c2, c3, c4, a1, a2, a3, a4)
    ensures var nt := (c1 + " " + c2) + " " + (c3 + " " + c4);
      !Contains(nt, "ct") && !Contains(nt, "differential") && !Contains(nt, "fluids")
  {
    GpChunkAlphabets();
    AbsentFromChunks(c1, c2, c3, c4, a1, a2, a3, a4, "ct", 't', 'c', 'c', 'c');
    AbsentFromChunks(c1, c2, c3, c4, a1, a2, a3, a4, "differential", 'f', 'd', 'd', 'f');
    AbsentFromChunks(c1, c2, c3, c4, a1, a2, a3, a4, "fluids", 'f', 'f', 'u', 'f');
  }

  /**
   * ... and the other four, by the same argument: for each keyword, one letter
   * missing from each of the four chunks, in chunk order.
   */
  lemma GpNoteSplitsLastKeywords(c1: string, c2: string, c3: string, c4: string,
                                 a1: set<char>, a2: set<char>, a3: set<char>, a4: set<char>)
    requires GpChunks(c1, c2, c3, c4, a1, a2, a3, a4)
    ensures var nt := (c1 + " " + c2) + " " + (c3 + " " + c4);
      !Contains(nt, "capacity") && !Contains(nt, "dnacpr") && !Contains(nt, "mdt") && !Contains(nt, "nurse")
  {
    GpChunkAlphabets();
    AbsentFromChunks(c1, c2, c3, c4, a1, a2, a3, a4, "capacity", 'a', 'c', 'c', 'c');
    AbsentFromChunks(c1, c2, c3, c4, a1, a2, a3, a4, "dnacpr", 'n', 'c', 'c', 'c');
    AbsentFromChunks(c1, c2, c3, c4, a1, a2, a3, a4, "mdt", 'm', 'm', 'd', 'm');
    AbsentFromChunks(c1, c2, c3, c4, a1, a2, a3, a4, "nurse", 'n', 'u', 'u', 'u');
  }

  /** No space-free chunk of the general-practice note holds any of seven keywords made of its letters. */
  lemma GpNoteSplitsKeywords(nt: string)
    requires nt == ("discussed" + " " + "the plan with the") + " " + ("family" + " " + "and explained risks")
    ensures !Contains(nt, "ct") && !Contains(nt, "differential") && !Contains(nt, "fluids")
    ensures !Contains(nt, "capacity") && !Contains(nt, "dnacpr") && !Contains(nt, "mdt") && !Contains(nt, "nurse")
  {
    var c1, c2, c3, c4 := "discussed", "the plan with the", "family", "and explained risks";
    var a1: set<char> := {'d', 'i', 's', 'c', 'u', 'e'};
    var a2: set<char> := {'t', 'h', 'e', ' ', 'p', 'l', 'a', 'n', 'w', 'i'};
    var a3: set<char> := {'f', 'a', 'm', 'i', 'l', 'y'};
    var a4: set<char> := {'a', 'n', 'd', ' ', 'e', 'x', 'p', 'l', 'i', 'r', 's', 'k'};
    GpNoteSplitsFirstKeywords(c1, c2, c3, c4, a1, a2, a3, a4);
    GpNoteSplitsLastKeywords(c1, c2, c3, c4, a1, a2, a3, a4);
  }

  /** Of the table's keywords the general-practice note holds exactly the first two of the first rule. */
  lemma GpNoteMatches()
    ensures forall m, k :: 0 <= m < |KeywordMappings| && 0 <= k < |KeywordMappings[m].keywords| ==>
      (Contains(Lower(GpNote), Lower(KeywordMappings[m].keywords[k])) <==> m == 0 && k < 2)
  {
    GpNoteLowered();
    var nt := Lower(GpNote);
    GpNoteHolds(nt);
    GpNoteLacksLetters(nt);
    GpNoteSplitsKeywords(nt);
    KeywordsAreLowerCase();
    forall m, k | 0 <= m < |KeywordMappings| && 0 <= k < |KeywordMappings[m].keywords|
      ensures Contains(nt, Lower(KeywordMappings[m].keywords[k])) <==> m == 0 && k < 2
    {
      assert KeywordMappings[m] in KeywordMappings;
      assert Lower(KeywordMappings[m].keywords[k]) == KeywordMappings[m].keywords[k];
      assert m == 0 || m == 1 || m == 2 || m == 3 || m == 4;
    }
  }

  /** The (rule, keyword) pairs that vote for `c` with the general-practice note. */
  lemma GpNoteSupporters(c: string)
    ensures Supporters(KeywordMappings, Lower(GpNote), c)
      == if c in KeywordMappings[0].capabilities then {(0, 0), (0, 1)} else {}
  {
    GpNoteMatches();
    var nt := Lower(GpNote);
    var found := Supporters(KeywordMappings, nt, c);
    var expected: set<(int, int)> := if c in KeywordMappings[0].capabilities then {(0, 0), (0, 1)} else {};
    forall p | p in found ensures p in expected {
      var m, k :| 0 <= m < |KeywordMappings| && 0 <= k < |KeywordMappings[m].keywords|
        && Supports(KeywordMappings, nt, c, m, k) && p == (m, k);
    }
    forall p | p in expected ensures p in found {
      assert Supports(KeywordMappings, nt, c, p.0, p.1);
    }
  }

  /**
   * With the general-practice note, the capabilities of the first rule
   * ("Communicating and Consulting", "Communication") get two votes each, one per
   * keyword found, and every other capability gets none.
   */
  lemma GpNoteScores()
    ensures forall c :: Score(KeywordMappings, GpNote, c) == if c in KeywordMappings[0].capabilities then 2 else 0
  {
    MappingTargetsDistinct();
    forall c ensures Score(KeywordMappings, GpNote, c) == if c in KeywordMappings[0].capabilities then 2 else 0 {
      VotesCountSupporters(KeywordMappings, Lower(GpNote), c);
      GpNoteSupporters(c);
    }
  }

  /** The precondition shared by the lemmas about an answer with a single capability that has votes. */
  ghost predicate OneScores(rules: seq<KeywordMapping>, text: string, availableCapabilities: seq<string>, p: int)
  {
    && Distinct(availableCapabilities) && |availableCapabilities| >= 3
    && 0 <= p < |availableCapabilities|
    && Score(rules, text, availableCapabilities[p]) > 0
    && forall j :: 0 <= j < |availableCapabilities| && j != p ==> Score(rules, text, availableCapabilities[j]) == 0
  }

  /** With a single capability that has votes, the answer has three names and that one comes first. */
  lemma SingleLeaderFirst(rules: seq<KeywordMapping>, text: string, availableCapabilities: seq<string>, p: int)
    requires OneScores(rules, text, availableCapabilities, p)
    ensures var r := TopCapabilities(rules, text, availableCapabilities);
      |r| == 3 && r[0] == availableCapabilities[p] && Distinct(r)
      && forall x :: x in r ==> x in availableCapabilities
  {
    var av := availableCapabilities;
    var leader := av[p];
    DedupOfDistinct(av);
    assert leader in av;
    TopCapabilitiesSelection(rules, text, av);
    var r := TopCapabilities(rules, text, av);
    assert Score(rules, text, r[0]) > 0 by {
      if leader in r {
        var i :| 0 <= i < |r| && r[i] == leader;
        assert i == 0 || Score(rules, text, r[0]) >= Score(rules, text, r[i]);
      } else {
        assert r[0] in r;
      }
    }
    var i0 :| 0 <= i0 < |av| && av[i0] == r[0];
    assert i0 == p;
  }

  /** The precondition shared by the lemmas about the second and third names of such an answer. */
  ghost predicate LeaderAnswer(rules: seq<KeywordMapping>, text: string, availableCapabilities: seq<string>, p: int, i1: int, i2: int)
  {
    var r := TopCapabilities(rules, text, availableCapabilities);
    && OneScores(rules, text, availableCapabilities, p)
    && 0 <= i1 < |availableCapabilities| && 0 <= i2 < |availableCapabilities|
    && |r| == 3 && r[0] == availableCapabilities[p] && Distinct(r)
    && availableCapabilities[i1] == r[1] && availableCapabilities[i2] == r[2]
  }

  /** With a single capability that has votes, the second and third names of the answer come in list order. */
  lemma SingleLeaderSecondThird(rules: seq<KeywordMapping>, text: string, availableCapabilities: seq<string>, p: int, i1: int, i2: int)
    requires LeaderAnswer(rules, text, availableCapabilities, p, i1, i2)
    ensures i1 != p && i2 != p && i1 < i2
  {
    var av := availableCapabilities;
    DedupOfDistinct(av);
    assert av[p] in av;
    TopCapabilitiesStable(rules, text, av);
    var r := TopCapabilities(rules, text, av);
    assert i1 != p && i2 != p;
    assert Score(rules, text, r[1]) == 0 && Score(rules, text, r[2]) == 0;
    assert Precedes(av, r[1], r[2]);
    var a, b :| 0 <= a < b < |av| && av[a] == r[1] && av[b] == r[2];
    assert a == i1 && b == i2;
  }

  /** With a single capability that has votes, the third name of the answer comes before every capability left out. */
  lemma SingleLeaderRest(rules: seq<KeywordMapping>, text: string, availableCapabilities: seq<string>, p: int, i1: int, i2: int)
    requires LeaderAnswer(rules, text, availableCapabilities, p, i1, i2)
    requires i2 != p
    ensures forall j :: 0 <= j < |availableCapabilities| && availableCapabilities[j] !in TopCapabilities(rules, text, availableCapabilities) ==>
      i2 < j
  {
    var av := availableCapabilities;
    DedupOfDistinct(av);
    TopCapabilitiesStable(rules, text, av);
    var r := TopCapabilities(rules, text, av);
    assert Score(rules, text, r[2]) == 0;
    forall j | 0 <= j < |av| && av[j] !in r
      ensures i2 < j
    {
      assert j != p;
      assert Score(rules, text, av[j]) == 0;
      assert Precedes(av, r[2], av[j]);
      var a', b' :| 0 <= a' < b' < |av| && av[a'] == r[2] && av[b'] == av[j];
      assert a' == i2 && b' == j;
    }
  }

  /**
   * When exactly one capability of a list without repeats collects votes, the
   * answer is that capability followed by the first two others in list order.
   */
  lemma SingleLeader(rules: seq<KeywordMapping>, text: string, availableCapabilities: seq<string>, p: int)
    requires OneScores(rules, text, availableCapabilities, p)
    ensures var q1, q2 := if p == 0 then 1 else 0, if p <= 1 then 2 else 1;
      TopCapabilities(rules, text, availableCapabilities)
        == [availableCapabilities[p], availableCapabilities[q1], availableCapabilities[q2]]
  {
    var av := availableCapabilities;
    SingleLeaderFirst(rules, text, av, p);
    var r := TopCapabilities(rules, text, av);
    assert r[1] in r && r[2] in r;
    var i1 :| 0 <= i1 < |av| && av[i1] == r[1];
    var i2 :| 0 <= i2 < |av| && av[i2] == r[2];
    SingleLeaderSecondThird(rules, text, av, p, i1, i2);
    SingleLeaderRest(rules, text, av, p, i1, i2);
    assert r == [av[p], av[i1], av[i2]];
    var q1, q2 := if p == 0 then 1 else 0, if p <= 1 then 2 else 1;
    assert av[q1] !in r || q1 == i1 || q1 == i2;
    assert av[q2] !in r || q2 == i1 || q2 == i2;
    assert q1 == i1 && q2 == i2;
  }

  /** Of the GP vocabulary only "Communicating and Consulting" is a target of the first rule. */
  lemma FirstRuleTargetsInGp()
    ensures forall j :: 0 <= j < |GpCapabilities| ==> (GpCapabilities[j] in KeywordMappings[0].capabilities <==> j == 10)
  {
  }

  /** Of the hospital vocabulary only "Communication" is a target of the first rule. */
  lemma FirstRuleTargetsInHospital()
    ensures forall j :: 0 <= j < |HospitalCapabilities| ==> (HospitalCapabilities[j] in KeywordMappings[0].capabilities <==> j == 0)
  {
  }

  lemma GpLeaderNames()
    ensures [GpCapabilities[10], GpCapabilities[0], GpCapabilities[1]]
      == ["Communicating and Consulting", "Decision-making and Diagnosis", "Clinical management"]
  {
  }

  lemma GpNoteOneScoresInGp()
    ensures OneScores(KeywordMappings, GpNote, GpCapabilities, 10)
  {
    VocabulariesDistinct();
    GpNoteScores();
    FirstRuleTargetsInGp();
  }

  lemma GpNoteOneScoresInHospital()
    ensures OneScores(KeywordMappings, GpNote, HospitalCapabilities, 0)
  {
    VocabulariesDistinct();
    GpNoteScores();
    FirstRuleTargetsInHospital();
  }

  /**
   * In general practice the note yields "Communicating and Consulting", then the
   * first two vocabulary entries, which tie at zero votes.
   */
  lemma GpNoteInGpMode()
    ensures TopCapabilities(KeywordMappings, GpNote, GpCapabilities)
      == ["Communicating and Consulting", "Decision-making and Diagnosis", "Clinical management"]
  {
    GpNoteOneScoresInGp();
    SingleLeader(KeywordMappings, GpNote, GpCapabilities, 10);
    GpLeaderNames();
  }

  /** In hospital mode the same note yields "Communication", then the next two vocabulary entries. */
  lemma GpNoteInHospitalMode()
    ensures TopCapabilities(KeywordMappings, GpNote, HospitalCapabilities)
      == ["Communication", "Analysis", "Empathy & Support"]
  {
    GpNoteOneScoresInHospital();
    SingleLeader(KeywordMappings, GpNote, HospitalCapabilities, 0);
  }

  // The plain note is handled by one alphabet for the whole lower-cased note:
  // every keyword holds a letter outside it (the character passed to
  // `OutsideAlphabetNotFound`), so no keyword occurs anywhere in the note.

  /** The characters of the lower-cased plain note. */
  const PlainAlphabet: set<char> := {'p', 'a', 't', 'i', 'e', 'n', ' ', 's', ',', 'o', 'u', '.'}

  lemma PlainNoteAlphabet()
    ensures Within(Lower(PlainNote), PlainAlphabet)
  {
    var raw: set<char> := {'P', 'a', 't', 'i', 'e', 'n', ' ', 's', ',', 'o', 'u', '.'};
    assert Within(PlainNote, raw);
    LowerWithin(PlainNote, raw, PlainAlphabet);
  }

  /** The keywords of the first two rules each hold a letter that the plain note lacks. */
  lemma PlainNoteLacksFirstKeywords(nt: string)
    requires Within(nt, PlainAlphabet)
    ensures !Contains(nt, "discussed")
    ensures !Contains(nt, "explained")
    ensures !Contains(nt, "consent")
    ensures !Contains(nt, "relative")
    ensures !Contains(nt, "sbar")
    ensures !Contains(nt, "reviewed bloods")
    ensures !Contains(nt, "ct")
    ensures !Contains(nt, "ecg")
    ensures !Contains(nt, "differential")
    ensures !Contains(nt, "diagnosis")
  {
    OutsideAlphabetNotFound(nt, PlainAlphabet, "discussed", 'd');
    OutsideAlphabetNotFound(nt, PlainAlphabet, "explained", 'x');
    OutsideAlphabetNotFound(nt, PlainAlphabet, "consent", 'c');
    OutsideAlphabetNotFound(nt, PlainAlphabet, "relative", 'r');
    OutsideAlphabetNotFound(nt, PlainAlphabet, "sbar", 'b');
    OutsideAlphabetNotFound(nt, PlainAlphabet, "reviewed bloods", 'r');
    OutsideAlphabetNotFound(nt, PlainAlphabet, "ct", 'c');
    OutsideAlphabetNotFound(nt, PlainAlphabet, "ecg", 'c');
    OutsideAlphabetNotFound(nt, PlainAlphabet, "differential", 'd');
    OutsideAlphabetNotFound(nt, PlainAlphabet, "diagnosis", 'd');
  }

  /** The keywords of the third rule each hold a letter that the plain note lacks. */
  lemma PlainNoteLacksMiddleKeywords(nt: string)
    requires Within(nt, PlainAlphabet)
    ensures !Contains(nt, "antibiotics")
    ensures !Contains(nt, "iv")
    ensures !Contains(nt, "analgesia")
    ensures !Contains(nt, "fluids")
    ensures !Contains(nt, "discharge")
    ensures !Contains(nt, "follow-up")
  {
    OutsideAlphabetNotFound(nt, PlainAlphabet, "antibiotics", 'b');
    OutsideAlphabetNotFound(nt, PlainAlphabet, "iv", 'v');
    OutsideAlphabetNotFound(nt, PlainAlphabet, "analgesia", 'l');
    OutsideAlphabetNotFound(nt, PlainAlphabet, "fluids", 'f');
    OutsideAlphabetNotFound(nt, PlainAlphabet, "discharge", 'd');
    OutsideAlphabetNotFound(nt, PlainAlphabet, "follow-up", 'f');
  }

  /** The keywords of the fourth rule each hold a letter that the plain note lacks. */
  lemma PlainNoteLacksLastKeywords(nt: string)
    requires Within(nt, PlainAlphabet)
    ensures !Contains(nt, "capacity")
    ensures !Contains(nt, "dnacpr")
    ensures !Contains(nt, "confidentiality")
    ensures !Contains(nt, "safeguarding")
  {
    OutsideAlphabetNotFound(nt, PlainAlphabet, "capacity", 'c');
    OutsideAlphabetNotFound(nt, PlainAlphabet, "dnacpr", 'd');
    OutsideAlphabetNotFound(nt, PlainAlphabet, "confidentiality", 'c');
    OutsideAlphabetNotFound(nt, PlainAlphabet, "safeguarding", 'f');
  }

  /** The keywords of the last rule each hold a letter that the plain note lacks. */
  lemma PlainNoteLacksTeamKeywords(nt: string)
    requires Within(nt, PlainAlphabet)
    ensures !Contains(nt, "handover")
    ensures !Contains(nt, "mdt")
    ensures !Contains(nt, "nurse")
    ensures !Contains(nt, "physio")
    ensures !Contains(nt, "on-call")
  {
    OutsideAlphabetNotFound(nt, PlainAlphabet, "handover", 'h');
    OutsideAlphabetNotFound(nt, PlainAlphabet, "mdt", 'm');
    OutsideAlphabetNotFound(nt, PlainAlphabet, "nurse", 'r');
    OutsideAlphabetNotFound(nt, PlainAlphabet, "physio", 'h');
    OutsideAlphabetNotFound(nt, PlainAlphabet, "on-call", 'c');
  }

  /** No keyword of the table is found in the plain note. */
  lemma PlainNoteMatchesNothing()
    ensures forall m, k :: 0 <= m < |KeywordMappings| && 0 <= k < |KeywordMappings[m].keywords| ==>
      !Contains(Lower(PlainNote), Lower(KeywordMappings[m].keywords[k]))
  {
    PlainNoteAlphabet();
    var nt := Lower(PlainNote);
    PlainNoteLacksFirstKeywords(nt);
    PlainNoteLacksMiddleKeywords(nt);
    PlainNoteLacksLastKeywords(nt);
    PlainNoteLacksTeamKeywords(nt);
    KeywordsAreLowerCase();
    forall m, k | 0 <= m < |KeywordMappings| && 0 <= k < |KeywordMappings[m].keywords|
      ensures !Contains(nt, Lower(KeywordMappings[m].keywords[k]))
    {
      assert KeywordMappings[m] in KeywordMappings;
      assert Lower(KeywordMappings[m].keywords[k]) == KeywordMappings[m].keywords[k];
      assert m == 0 || m == 1 || m == 2 || m == 3 || m == 4;
    }
  }

  /** The plain note gives no capability a vote, so in either mode the choice is deferred with "AUTO". */
  lemma PlainNoteDefers()
    ensures forall c :: Score(KeywordMappings, PlainNote, c) == 0
    ensures TopCapabilities(KeywordMappings, PlainNote, GpCapabilities) == [Auto]
    ensures TopCapabilities(KeywordMappings, PlainNote, HospitalCapabilities) == [Auto]
  {
    PlainNoteMatchesNothing();
    forall c ensures Score(KeywordMappings, PlainNote, c) == 0 {
      VotesPositiveIff(KeywordMappings, Lower(PlainNote), c);
    }
    TopCapabilitiesDefer(KeywordMappings, PlainNote, GpCapabilities);
    TopCapabilitiesDefer(KeywordMappings, PlainNote, HospitalCapabilities);
  }

  // ---------------------------------------------------------------------------
  // Consequences of the table for every note

  /**
   * Keywords match as plain substrings: any note containing "doctor" holds the
   * keyword "ct" and so gives "Decision-making and Diagnosis" a vote.
   */
  lemma DoctorMatchesCt(text: string)
    requires Contains(Lower(text), "doctor")
    ensures Score(KeywordMappings, text, "Decision-making and Diagnosis") > 0
  {
    var nt := Lower(text);
    assert OccursAt("doctor", "ct", 2);
    ContainsTransitive(nt, "doctor", "ct");
    KeywordsAreLowerCase();
    assert KeywordMappings[1] in KeywordMappings;
    assert Supports(KeywordMappings, nt, "Decision-making and Diagnosis", 1, 1);
    VotesPositiveIff(KeywordMappings, nt, "Decision-making and Diagnosis");
  }

  /**
   * The keyword "iv" lies inside the keyword "relative": any note that mentions a
   * relative gives "Clinical management" a vote besides the communication ones.
   */
  lemma RelativeImpliesClinicalManagement(text: string)
    requires Contains(Lower(text), "relative")
    ensures Score(KeywordMappings, text, "Clinical management") > 0
    ensures Score(KeywordMappings, text, "Communicating and Consulting") > 0
  {
    var nt := Lower(text);
    IvInsideRelative();
    ContainsTransitive(nt, "relative", "iv");
    KeywordsAreLowerCase();
    assert KeywordMappings[0] in KeywordMappings && KeywordMappings[2] in KeywordMappings;
    assert Supports(KeywordMappings, nt, "Clinical management", 2, 1);
    assert Supports(KeywordMappings, nt, "Communicating and Consulting", 0, 3);
    VotesPositiveIff(KeywordMappings, nt, "Clinical management");
    VotesPositiveIff(KeywordMappings, nt, "Communicating and Consulting");
  }

  /** "Empathy & Support" and "Objectivity" score zero for every note. */
  lemma UntargetedNeverVoted(text: string)
    ensures Score(KeywordMappings, text, "Empathy & Support") == 0
    ensures Score(KeywordMappings, text, "Objectivity") == 0
  {
    UntargetedHospitalCapabilities();
    UntargetedNeverScores(KeywordMappings, Lower(text), "Empathy & Support");
    UntargetedNeverScores(KeywordMappings, Lower(text), "Objectivity");
  }
}
