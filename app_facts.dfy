/**
 * The page's final selection for the two example notes worked through in
 * `ScoringFacts`.
 */
module AppFacts {
  import opened Types
  import opened ScoringFacts
  import opened App

  /** The family-discussion note sends its three top GP capabilities, not "AUTO". */
  lemma GpNoteSelection(selected: seq<string>)
    ensures FinalSelection(GP, true, GpNote, selected) ==
      Chosen(["Communicating and Consulting", "Decision-making and Diagnosis", "Clinical management"])
  {
    GpNoteInGpMode();
  }

  /** A note that matches no keyword leaves the choice to the writer in either mode. */
  lemma PlainNoteSelection(mode: AppMode, selected: seq<string>)
    ensures FinalSelection(mode, true, PlainNote, selected) == AutoSelection
  {
    PlainNoteDefers();
  }
}
