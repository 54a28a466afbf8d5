/** The two capability vocabularies and the static keyword table (constants.ts). */
module Constants {
  import opened Types
  import opened Sequences
  import opened Strings

  /** The capabilities assessed in general-practice appraisals. */
  const GpCapabilities: seq<string> := [
    "Decision-making and Diagnosis",
    "Clinical management",
    "Medical complexity",
    "Team working",
    "Performance, learning and teaching",
    "Organisation, management and leadership",
    "Holistic practice, health promotion and safeguarding",
    "Community health and environmental sustainability",
    "Fitness to practise",
    "An Ethical Approach",
    "Communicating and Consulting",
    "Data gathering and interpretation",
    "Clinical examination and procedural skills"
  ]

  /** The capabilities assessed in hospital appraisals. */
  const HospitalCapabilities: seq<string> := [
    "Communication",
    "Analysis",
    "Empathy & Support",
    "Objectivity",
    "Ethical Understanding"
  ]

  /** The keyword rules the scorer is closed over. */
  const KeywordMappings: seq<KeywordMapping> := [
    KeywordMapping(
      ["discussed", "explained", "consent", "relative", "sbar"],
      ["Communicating and Consulting", "Communication"]),
    KeywordMapping(
      ["reviewed bloods", "ct", "ecg", "differential", "diagnosis"],
      ["Decision-making and Diagnosis", "Data gathering and interpretation", "Analysis"]),
    KeywordMapping(
      ["antibiotics", "iv", "analgesia", "fluids", "discharge", "follow-up"],
      ["Clinical management"]),
    KeywordMapping(
      ["capacity", "dnacpr", "confidentiality", "safeguarding"],
      ["An Ethical Approach", "Fitness to practise",
       "Holistic practice, health promotion and safeguarding", "Ethical Understanding"]),
    KeywordMapping(
      ["handover", "mdt", "nurse", "physio", "on-call"],
      ["Team working"])
  ]

  /** The GP vocabulary has 13 names and the hospital one 5, none repeated. */
  lemma VocabulariesDistinct()
    ensures |GpCapabilities| == 13 && Distinct(GpCapabilities)
    ensures |HospitalCapabilities| == 5 && Distinct(HospitalCapabilities)
  {
  }

  /** Every capability a rule votes for belongs to one of the two vocabularies. */
  lemma MappingTargetsAreKnown()
    ensures forall m, c :: m in KeywordMappings && c in m.capabilities ==>
      c in GpCapabilities || c in HospitalCapabilities
  {
  }

  /** No rule lists a capability twice, so a matched keyword gives each target one vote. */
  lemma MappingTargetsDistinct()
    ensures forall m :: 0 <= m < |KeywordMappings| ==> Distinct(KeywordMappings[m].capabilities)
  {
  }

  /** Every keyword is already lower case, so lower-casing it changes nothing. */
  lemma KeywordsAreLowerCase()
    ensures forall m, k :: m in KeywordMappings && k in m.keywords ==> Lower(k) == k
  {
    forall m, k | m in KeywordMappings && k in m.keywords
      ensures Lower(k) == k
    {
      var i :| 0 <= i < |KeywordMappings| && KeywordMappings[i] == m;
      var j :| 0 <= j < |m.keywords| && m.keywords[j] == k;
      KeywordLowerCase(i, j);
      LowerCaseFixpoints(k);
    }
  }

  /** Keyword `j` of rule `i` contains no upper-case letter. */
  lemma KeywordLowerCase(i: int, j: int)
    requires 0 <= i < |KeywordMappings| && 0 <= j < |KeywordMappings[i].keywords|
    ensures IsLowerCase(KeywordMappings[i].keywords[j])
  {
    if i == 0 {
    } else if i == 1 {
    } else if i == 2 {
    } else if i == 3 {
    } else {
    }
  }

  /** "Empathy & Support" and "Objectivity" are the targets of no rule. */
  lemma UntargetedHospitalCapabilities()
    ensures forall m :: m in KeywordMappings ==>
      "Empathy & Support" !in m.capabilities && "Objectivity" !in m.capabilities
  {
  }

  /** The keyword "iv" of the third rule is part of the keyword "relative" of the first. */
  lemma IvInsideRelative()
    ensures "relative" in KeywordMappings[0].keywords && "iv" in KeywordMappings[2].keywords
    ensures "Clinical management" in KeywordMappings[2].capabilities
    ensures Contains("relative", "iv")
  {
    assert OccursAt("relative", "iv", 5);
  }
}
