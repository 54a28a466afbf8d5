/**
 * The page component (App.tsx): which vocabulary is active, what selection is
 * sent with a generation request, and how the handlers change the page state.
 */
module App {
  import opened Types
  import opened Sequences
  import opened Strings
  import opened Constants
  import opened Scoring
  import CapabilitySelector
  import opened SuggestionsBox

  /** The capability vocabulary of a mode. */
  function ActiveCapabilities(mode: AppMode): (r: seq<string>)
    ensures mode == GP ==> r == GpCapabilities
    ensures mode == Hospital ==> r == HospitalCapabilities
  {
    if mode == GP then GpCapabilities else HospitalCapabilities
  }

  /** The selection sent to the writer: a list of capabilities, or "AUTO" to let the writer choose. */
  datatype Selection = AutoSelection | Chosen(capabilities: seq<string>)

  /** What a generation request carries besides the note's own text. */
  datatype GenerationRequest = GenerationRequest(
    mode: AppMode,
    capabilities: seq<string>,
    selection: Selection,
    note: string)

  /**
   * How auto mode reads the scorer's answer: an actual list is sent as it is;
   * an empty answer and the sentinel both leave the choice to the writer.
   */
  function FromScored(scored: seq<string>): (r: Selection)
    ensures r == AutoSelection <==> scored == [] || scored[0] == Auto
    ensures r.Chosen? ==> r.capabilities == scored
  {
    if |scored| > 0 && scored[0] != Auto then Chosen(scored) else AutoSelection
  }

  /** The final selection `handleGenerate` sends. */
  function FinalSelection(mode: AppMode, isAuto: bool, note: string, selected: seq<string>): (r: Selection)
    ensures !isAuto ==> r == Chosen(selected)
  {
    if isAuto then FromScored(TopCapabilities(KeywordMappings, note, ActiveCapabilities(mode)))
    else Chosen(selected)
  }

  /** No general-practice capability is the sentinel. */
  lemma SentinelNotGpCapability()
    ensures Auto !in GpCapabilities
  {
    forall i | 0 <= i < |GpCapabilities| ensures GpCapabilities[i] != Auto {
      assert |GpCapabilities[i]| > |Auto|;
    }
  }

  /** No hospital capability is the sentinel. */
  lemma SentinelNotHospitalCapability()
    ensures Auto !in HospitalCapabilities
  {
    forall i | 0 <= i < |HospitalCapabilities| ensures HospitalCapabilities[i] != Auto {
      assert |HospitalCapabilities[i]| > |Auto|;
    }
  }

  /** Each vocabulary has at least three names, none repeated, none of them the sentinel. */
  lemma ActiveVocabulary(mode: AppMode)
    ensures var active := ActiveCapabilities(mode);
      |active| >= TopCount && Distinct(active) && Auto !in active
  {
    VocabulariesDistinct();
    if mode == GP {
      SentinelNotGpCapability();
    } else {
      SentinelNotHospitalCapability();
    }
  }

  /**
   * In auto mode the writer chooses exactly when no capability of the active
   * vocabulary collected a vote; otherwise three capabilities are sent, all
   * active, none repeated, by non-increasing votes, none beaten by one left out.
   */
  lemma AutoSelectionIffNoVotes(mode: AppMode, note: string, selected: seq<string>)
    ensures var active := ActiveCapabilities(mode);
      FinalSelection(mode, true, note, selected) == AutoSelection <==> !AnyScore(KeywordMappings, note, active)
    ensures var active := ActiveCapabilities(mode);
      var r := FinalSelection(mode, true, note, selected);
      r.Chosen? ==>
        && |r.capabilities| == TopCount
        && (forall x :: x in r.capabilities ==> x in active)
        && Distinct(r.capabilities)
        && (forall i, j :: 0 <= i < j < |r.capabilities| ==>
              Score(KeywordMappings, note, r.capabilities[i]) >= Score(KeywordMappings, note, r.capabilities[j]))
        && (forall c, x :: c in active && c !in r.capabilities && x in r.capabilities ==>
              Score(KeywordMappings, note, c) <= Score(KeywordMappings, note, x))
  {
    var active := ActiveCapabilities(mode);
    ActiveVocabulary(mode);
    DedupOfDistinct(active);
    if AnyScore(KeywordMappings, note, active) {
      TopCapabilitiesSelection(KeywordMappings, note, active);
      var scored := TopCapabilities(KeywordMappings, note, active);
      assert scored[0] in scored;
    } else {
      TopCapabilitiesDefer(KeywordMappings, note, active);
    }
  }

  /** The page's state: the fields `App` keeps with `useState`, less the loading and modal flags. */
  class AppState {
    var mode: AppMode
    var note: string
    var isAuto: bool
    var selectedCapabilities: seq<string>
    var suggestions: seq<string>
    var output: Option<AppraisalOutput>

    /** The manual selection holds capabilities of the active vocabulary, each once. */
    ghost predicate Valid()
      reads this
    {
      && (forall c :: c in selectedCapabilities ==> c in ActiveCapabilities(mode))
      && Distinct(selectedCapabilities)
    }

    /** The page as first shown: GP mode, empty note, auto-linking on, nothing selected or suggested. */
    constructor ()
      ensures Valid()
      ensures mode == GP && note == "" && isAuto
      ensures selectedCapabilities == [] && suggestions == [] && output == None
    {
      mode := GP;
      note := "";
      isAuto := true;
      selectedCapabilities := [];
      suggestions := [];
      output := None;
    }

    /** A click on "GP" or "Hospital": the mode changes and the selection and suggestions are cleared. */
    method SwitchMode(m: AppMode)
      modifies this
      ensures Valid()
      ensures mode == m && selectedCapabilities == [] && suggestions == []
      ensures note == old(note) && isAuto == old(isAuto) && output == old(output)
    {
      mode := m;
      selectedCapabilities := [];
      suggestions := [];
    }

    /** Typing in the note box. */
    method EditNote(text: string)
      requires Valid()
      modifies this
      ensures Valid()
      ensures note == text
      ensures mode == old(mode) && isAuto == old(isAuto) && output == old(output)
      ensures selectedCapabilities == old(selectedCapabilities) && suggestions == old(suggestions)
    {
      note := text;
    }

    /** The "Auto-link 3 capabilities" switch; the manual selection is kept while hidden. */
    method SetAuto(on: bool)
      requires Valid()
      modifies this
      ensures Valid()
      ensures isAuto == on
      ensures mode == old(mode) && note == old(note) && output == old(output)
      ensures selectedCapabilities == old(selectedCapabilities) && suggestions == old(suggestions)
    {
      isAuto := on;
    }

    /** A click on a capability of the picker, which only offers the active vocabulary. */
    method ToggleCapability(cap: string)
      requires Valid()
      requires cap in ActiveCapabilities(mode)
      modifies this
      ensures Valid()
      ensures selectedCapabilities == CapabilitySelector.Toggle(old(selectedCapabilities), cap)
      ensures mode == old(mode) && note == old(note) && isAuto == old(isAuto)
      ensures suggestions == old(suggestions) && output == old(output)
    {
      CapabilitySelector.ToggleKeepsDistinct(selectedCapabilities, cap);
      CapabilitySelector.ToggleKeepsWithin(ActiveCapabilities(mode), selectedCapabilities, cap);
      selectedCapabilities := CapabilitySelector.Toggle(selectedCapabilities, cap);
    }

    /**
     * `handleAnalyze`, with the questions the language model returns as a
     * parameter: a blank note changes nothing, otherwise the questions are shown.
     */
    method Analyze(questions: seq<string>)
      requires Valid()
      modifies this
      ensures Valid()
      ensures suggestions == if Trim(old(note)) == "" then old(suggestions) else questions
      ensures mode == old(mode) && note == old(note) && isAuto == old(isAuto)
      ensures selectedCapabilities == old(selectedCapabilities) && output == old(output)
    {
      if Trim(note) == "" {
        return;
      }
      suggestions := questions;
    }

    /** `handleApplySuggestions`: the answers are appended to the note and the box closes. */
    method ApplySuggestions(addedText: string)
      requires Valid()
      modifies this
      ensures Valid()
      ensures note == old(note) + addedText && old(note) <= note
      ensures suggestions == []
      ensures mode == old(mode) && isAuto == old(isAuto)
      ensures selectedCapabilities == old(selectedCapabilities) && output == old(output)
    {
      note := note + addedText;
      suggestions := [];
    }

    /** The box's close button and its `onCancel`: the suggestions go away, the note stays. */
    method CancelSuggestions()
      requires Valid()
      modifies this
      ensures Valid()
      ensures suggestions == []
      ensures mode == old(mode) && note == old(note) && isAuto == old(isAuto)
      ensures selectedCapabilities == old(selectedCapabilities) && output == old(output)
    {
      suggestions := [];
    }

    /**
     * "Add Answers to Note" on the suggestion box: the box closes, and the
     * answered questions' blocks, if any, are appended to the note.
     */
    method SubmitAnswers(answers: Answers)
      requires Valid()
      modifies this
      ensures Valid()
      ensures suggestions == []
      ensures note == match HandleApply(old(suggestions), answers)
        case Cancel => old(note)
        case Apply(text) => old(note) + text
      ensures mode == old(mode) && isAuto == old(isAuto)
      ensures selectedCapabilities == old(selectedCapabilities) && output == old(output)
    {
      match HandleApply(suggestions, answers)
      case Cancel =>
        CancelSuggestions();
      case Apply(text) =>
        ApplySuggestions(text);
    }

    /**
     * `handleGenerate`, with the writer's reply as a parameter: `None` stands for
     * the `null` the service returns when the call fails or the response is
     * empty. A blank note changes nothing and sends nothing; otherwise the
     * request carries the mode, its vocabulary, the final selection and the
     * note, and the reply replaces the output, so a failed call clears it.
     */
    method Generate(reply: Option<AppraisalOutput>) returns (request: Option<GenerationRequest>)
      requires Valid()
      modifies this
      ensures Valid()
      ensures Trim(old(note)) == "" ==> request == None && output == old(output)
      ensures Trim(old(note)) != "" ==>
        && request == Some(GenerationRequest(mode, ActiveCapabilities(mode),
             FinalSelection(mode, isAuto, note, selectedCapabilities), note))
        && output == reply
      ensures Trim(old(note)) != "" && !isAuto ==> request.value.selection == Chosen(selectedCapabilities)
      ensures Trim(old(note)) != "" && isAuto ==>
        (request.value.selection == AutoSelection <==> !AnyScore(KeywordMappings, note, ActiveCapabilities(mode)))
      ensures mode == old(mode) && note == old(note) && isAuto == old(isAuto)
      ensures selectedCapabilities == old(selectedCapabilities) && suggestions == old(suggestions)
    {
      if Trim(note) == "" {
        return None;
      }
      var active := ActiveCapabilities(mode);
      var finalSelection := AutoSelection;
      if isAuto {
        var scoredCaps := CalculateTopCapabilities(KeywordMappings, note, active);
        if |scoredCaps| > 0 && scoredCaps[0] != Auto {
          finalSelection := Chosen(scoredCaps);
        } else {
          finalSelection := AutoSelection;
        }
      } else {
        finalSelection := Chosen(selectedCapabilities);
      }
      if isAuto {
        AutoSelectionIffNoVotes(mode, note, selectedCapabilities);
      }
      request := Some(GenerationRequest(mode, active, finalSelection, note));
      output := reply;
    }
  }
}
