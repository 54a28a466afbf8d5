# Appraise: a verified model of the capability scorer and the page logic

Appraise turns a clinician's free-text note into an appraisal entry. Before
the language model is asked to write anything, the page decides which
capabilities of the active vocabulary (general practice or hospital) the
entry is linked to. In auto mode a local keyword scorer picks them. It
lower-cases the note and gives each capability one vote per (rule, keyword)
pair of a fixed table whose keyword occurs in the note and whose rule lists
that capability. It ranks the
capabilities with a stable sort by votes and proposes the first three, or
the sentinel "AUTO" when nothing scored. In manual mode the user's picks are
sent as they are. A suggestion box can add quoted question-and-answer blocks
to the note.

The project models:

- `types.dfy`: the records of types.ts as datatypes.
- `constants.dfy`: the two vocabularies and the keyword table as constants, with lemmas about that data.
- `scoring.dfy`: `calculateTopCapabilities`.
  - Pure specification functions cover the votes, the key order of the score record (`Dedup`), the stable sort (`SortByScore`) and the answer (`TopCapabilities`).
  - The imperative method `CalculateTopCapabilities` builds the record in a map with loops. It is proved equal to `TopCapabilities`.
- `scoring_facts.dfy`: what the scorer answers for the real table on concrete notes.
- `capability_selector.dfy`: the toggle of the manual picker.
- `suggestions_box.dfy`: assembly of the answer text, or cancel, and the per-question answer update.
- `app_facts.dfy`: the page's final selection for the two example notes.
- `app.dfy`:
  - the vocabulary of a mode and the final-selection decision, as functions;
  - a class `AppState` with the page's state fields and one method per handler.
- `strings.dfy`, `sequences.dfy`: lower-casing, substring search, `trim`, and sequence predicates.

The rule table is a parameter `rules` of the scorer's functions and method. The page always passes `Constants.KeywordMappings`.

## Model

| member | source | states |
|---|---|---|
| Constants.VocabulariesDistinct | constants.ts:3-25 | the GP vocabulary has 13 names and the hospital one 5, none repeated |
| Constants.MappingTargetsAreKnown | constants.ts:28-49 | every capability a rule votes for belongs to one of the two vocabularies |
| Constants.MappingTargetsDistinct | constants.ts:28-49 | no rule lists the same capability twice, so a found keyword gives each listed capability one vote |
| Constants.KeywordsAreLowerCase | constants.ts:30-46 | every keyword is already lower case, so lower-casing it changes nothing |
| Constants.UntargetedHospitalCapabilities | constants.ts:19-49 | "Empathy & Support" and "Objectivity" are listed by no rule |
| Constants.IvInsideRelative | constants.ts:30-38 | the keyword "iv" occurs inside the keyword "relative" |
| Strings.LowerCaseFixpoints | utils/scoring.ts:8 | lower-cased text has no upper-case ASCII letter; lower-casing leaves text unchanged exactly when it is already lower case, and applying it twice changes nothing more |
| Strings.LowerConcat | utils/scoring.ts:8 | lower-casing works piece by piece: the lower-cased join is the join of the lower-cased pieces |
| Strings.TrimSpec | App.tsx:29 | `trim` keeps a middle slice whose removed ends are white space; the result is empty exactly when the text is all white space |
| Strings.ContainsEmpty | utils/scoring.ts:19 | `includes` finds the empty needle in every text, the empty text included |
| Strings.ContainsInConcat | utils/scoring.ts:19 | a needle found in a part of a text is found in the whole text |
| Strings.ContainsTransitive | utils/scoring.ts:19 | a text that holds a needle holds every needle that needle holds, so a longer keyword that matches makes each keyword inside it match too |
| Strings.MissingCharNotFound | utils/scoring.ts:19 | a needle with a character the text lacks is not found |
| Scoring.VotesPositiveIff | utils/scoring.ts:17-28 | a capability gets a vote exactly when some keyword of a rule listing it occurs in the lower-cased note |
| Scoring.VotesCountSupporters | utils/scoring.ts:17-28 | the votes of a capability are the number of (rule, keyword) pairs whose keyword occurs and whose rule lists it |
| Scoring.UntargetedNeverScores | utils/scoring.ts:21-24 | a capability no rule lists never gets a vote |
| Scoring.VotesPresenceOnly | utils/scoring.ts:18-19 | votes depend only on which keywords occur, not how often |
| Scoring.DedupSpec | utils/scoring.ts:9-14 | the record's keys are the available names, each once |
| Scoring.DedupOfDistinct | utils/scoring.ts:9-14 | with distinct names the key order is the input order |
| Scoring.SortByScoreSpec | utils/scoring.ts:31-33 | the sort orders by non-increasing votes, is a permutation, and keeps the order among equal votes |
| Scoring.RankingFacts | utils/scoring.ts:31-33 | the ranking has one entry per distinct available name, with its true votes, sorted, with no name repeated |
| Scoring.AnswerIsTopOfRanking | utils/scoring.ts:31-45 | when something scored, the answer is the first min(3, distinct names) entries of the ranking, each with its votes |
| Scoring.TopCapabilitiesEmpty | utils/scoring.ts:40-45 | with no available capability the answer is empty, not "AUTO" |
| Scoring.TopCapabilitiesDefer | utils/scoring.ts:40-42 | with some capability available and none voted for, the answer is exactly ["AUTO"] |
| Scoring.TopCapabilitiesSelection | utils/scoring.ts:31-45 | when something scored, the answer has min(3, distinct names) names, all available, none repeated, by non-increasing votes, none beaten by one left out |
| Scoring.RankingKeepsTies | utils/scoring.ts:31-33 | equal-vote entries of the ranking are in the order of the record's keys |
| Scoring.TopCapabilitiesStable | utils/scoring.ts:31-45 | ties in the answer, and between an answered and a left-out capability, follow the available list's order |
| Scoring.TopCapabilitiesIgnoresCase | utils/scoring.ts:8 | notes that differ only in letter case get the same answer |
| Scoring.TopCapabilitiesPresenceOnly | utils/scoring.ts:17-28 | notes that contain the same keywords get the same answer |
| Scoring.AddVotes | utils/scoring.ts:18-27 | one rule's pass keeps the keys and adds that rule's votes to each |
| Scoring.CalculateTopCapabilities | utils/scoring.ts:4-46 | the map-and-loop scorer returns exactly `TopCapabilities` |
| ScoringFacts.GpNoteMatches | constants.ts:28-49 | the family-discussion note contains exactly the keywords "discussed" and "explained" |
| ScoringFacts.GpNoteScores | constants.ts:28-32 | that note gives 2 votes to the first rule's capabilities and 0 to every other |
| ScoringFacts.SingleLeader | utils/scoring.ts:31-45 | with at least three distinct names and exactly one that has votes, the answer is that one followed by the first two others in list order |
| ScoringFacts.GpNoteInGpMode | utils/scoring.ts:31-45 | with the GP list that note yields ["Communicating and Consulting", "Decision-making and Diagnosis", "Clinical management"] |
| ScoringFacts.GpNoteInHospitalMode | utils/scoring.ts:31-45 | with the hospital list it yields ["Communication", "Analysis", "Empathy & Support"] |
| ScoringFacts.PlainNoteMatchesNothing | constants.ts:28-49 | "Patient seen, no issues." contains no keyword |
| ScoringFacts.PlainNoteDefers | utils/scoring.ts:40-42 | that note yields ["AUTO"] with either list |
| ScoringFacts.DoctorMatchesCt | constants.ts:34 | a note containing "doctor" votes for "Decision-making and Diagnosis" through the keyword "ct" |
| ScoringFacts.RelativeImpliesClinicalManagement | constants.ts:30-39 | a note containing "relative" votes for both "Communicating and Consulting" and "Clinical management" |
| ScoringFacts.UntargetedNeverVoted | constants.ts:19-49 | "Empathy & Support" and "Objectivity" get no vote for any note |
| CapabilitySelector.RemoveSpec | components/CapabilitySelector.tsx:16 | the filter drops every occurrence of the name and nothing else |
| CapabilitySelector.RemoveConcat | components/CapabilitySelector.tsx:16 | the filter works piecewise, so kept names keep their order |
| CapabilitySelector.Toggle | components/CapabilitySelector.tsx:14-20 | after a toggle the name is selected exactly when it was not; other names keep their membership; the multiset gains or loses exactly that name |
| CapabilitySelector.ToggleSelected | components/CapabilitySelector.tsx:15-16 | toggling a selected name takes it out from wherever it sits; the rest stay in order |
| CapabilitySelector.ToggleUnselected | components/CapabilitySelector.tsx:17-18 | toggling an unselected name appends it and keeps the prefix, with no size limit |
| CapabilitySelector.ToggleTwiceRestores | components/CapabilitySelector.tsx:15-18 | two toggles of an unselected name restore the selection |
| CapabilitySelector.ToggleTwiceMovesLast | components/CapabilitySelector.tsx:15-18 | two toggles of a selected name move it to the end |
| CapabilitySelector.ToggleKeepsDistinct | components/CapabilitySelector.tsx:15-18 | a selection without repeats keeps that property |
| CapabilitySelector.ToggleKeepsWithin | components/CapabilitySelector.tsx:28-34 | toggles of offered names keep the selection within the offered list |
| SuggestionsBox.Block | components/SuggestionsBox.tsx:16 | a block starts with the question header, ends with the answer, and is 31 characters longer than both |
| SuggestionsBox.PresentSpec | components/SuggestionsBox.tsx:17 | filtering keeps exactly the values at the filled positions, in their order |
| SuggestionsBox.AnsweredIndices | components/SuggestionsBox.tsx:14-15 | the answered question indices, increasing, and exactly those |
| SuggestionsBox.PartsAreAnsweredBlocks | components/SuggestionsBox.tsx:13-17 | the parts are the answered questions' blocks, one each, in question order |
| SuggestionsBox.CancelIffNothingAnswered | components/SuggestionsBox.tsx:19-22 | the box cancels exactly when no question has a non-blank answer |
| SuggestionsBox.ApplyText | components/SuggestionsBox.tsx:24 | otherwise it applies the parts joined with nothing in between |
| SuggestionsBox.ConcatAppend | components/SuggestionsBox.tsx:24 | `join('')` puts each part directly after the join of the ones before it, with no separator |
| SuggestionsBox.PartsAppend | components/SuggestionsBox.tsx:13-24 | one more question appends its block to the text when answered, and nothing otherwise |
| SuggestionsBox.ExtraAnswersIgnored | components/SuggestionsBox.tsx:13-14 | answers past the last question never change the outcome |
| SuggestionsBox.SetAnswer | components/SuggestionsBox.tsx:52 | editing answer i sets key i and leaves every other key and value as it was |
| SuggestionsBox.SetAnswerTouchesOnePart | components/SuggestionsBox.tsx:52 | editing answer i changes no other question's part |
| SuggestionsBox.BlankAnswerDropsBlock | components/SuggestionsBox.tsx:14-15 | blanking answer i takes question i out of the answered ones |
| App.ActiveVocabulary | App.tsx:24-26 | each vocabulary has at least three names, none repeated, none equal to "AUTO" |
| App.AutoSelectionIffNoVotes | App.tsx:49-57 | in auto mode AUTO is sent exactly when nothing in the vocabulary scored; otherwise the three best-scoring active capabilities are sent |
| AppFacts.GpNoteSelection | App.tsx:49-57 | the family-discussion note in GP auto mode sends the three named capabilities |
| AppFacts.PlainNoteSelection | App.tsx:49-57 | a note with no keyword sends AUTO in either mode |
| App.AppState.constructor | App.tsx:11-21 | the page starts in GP mode, with an empty note, auto on, and nothing selected, suggested or shown |
| App.AppState.SwitchMode | App.tsx:97-110 | switching mode in either direction sets the mode and clears the selection and the suggestions |
| App.AppState.EditNote | App.tsx:132 | typing replaces the note only |
| App.AppState.SetAuto | App.tsx:174 | the switch sets auto mode only and keeps the manual selection |
| App.AppState.ToggleCapability | App.tsx:186-190 | a picker click applies the toggle and keeps the selection within the vocabulary, without repeats |
| App.AppState.Analyze | App.tsx:28-34 | a blank note changes nothing; otherwise the returned questions become the suggestions |
| App.AppState.ApplySuggestions | App.tsx:36-39 | the added text is appended, so the old note is a prefix of the new one, and the suggestions are cleared |
| App.AppState.CancelSuggestions | App.tsx:163 | cancelling clears the suggestions and keeps the note |
| App.AppState.SubmitAnswers | App.tsx:158-165 | the box's outcome either appends the answer text or only closes the box |
| App.AppState.Generate | App.tsx:41-71 | a blank note changes nothing and sends nothing; otherwise the request carries the mode, its vocabulary, the final selection and the note; in manual mode the selection is passed through unchanged, with no length check; in auto mode AUTO is sent exactly when nothing scored; the reply, possibly `null`, replaces the output |

Some functions are definitions of the source's operations. Their own contracts, where they have any, only spell out their bodies; the lemmas in the table state what they mean:
- `Strings.Lower`: see `LowerCaseFixpoints`, `LowerConcat` and `TopCapabilitiesIgnoresCase`.
- `Scoring.Ranked` and `Scoring.Names`: see `RankingFacts` and `AnswerIsTopOfRanking`.
- `SuggestionsBox.Part` and `SuggestionsBox.Parts`: see `AnsweredIndices` and `PartsAreAnsweredBlocks`.
- `App.ActiveCapabilities`: see `ActiveVocabulary`.
- `App.FromScored` and `App.FinalSelection`: see `AutoSelectionIffNoVotes`, and the `Generate` row for the manual case.
- `Scoring.KeywordVotes` and `Scoring.Votes`: see `VotesPositiveIff`, `VotesCountSupporters`, `UntargetedNeverScores` and `VotesPresenceOnly`.
- `Scoring.Dedup`: see `DedupSpec` and `DedupOfDistinct`.
- `Scoring.SortByScore`: see `SortByScoreSpec` and `RankingKeepsTies`.
- `Scoring.TopCapabilities`: see `TopCapabilitiesSelection`, `TopCapabilitiesStable`, `TopCapabilitiesEmpty`, `TopCapabilitiesDefer` and `CalculateTopCapabilities`.
- `Strings.Trim`: see `TrimSpec`.
- `Strings.Contains`: see `ContainsEmpty`, `ContainsInConcat`, `ContainsTransitive` and `MissingCharNotFound`.
- `CapabilitySelector.Remove`: see `RemoveSpec` and `RemoveConcat`.
- `SuggestionsBox.HandleApply`: see `CancelIffNothingAnswered` and `ApplyText`.
- `SuggestionsBox.Present`: see `PresentSpec`.
- `SuggestionsBox.Concat`: see `ConcatAppend`.

## Left out

- The language-model calls in services/geminiService.ts are not modelled. The questions and the reply they return are parameters of `Analyze` and `Generate`. The reply is an `Option`, because the service returns `null` when the call fails or the response is empty; the list of questions may be empty for the same reasons.
- components/OutputDisplay.tsx is not part of this model: it covers markdown rendering, the clipboard and the "Copied" timer.
- Not modelled: JSX rendering, styling, the subscription modal and `alert`.
- The loading flags `isGenerating` and `isAnalyzing` are left out, and so is the wait for a promise. The model runs each handler to completion with the state it started from.
- Strings.Lower: ASCII letters only. `toLowerCase` also maps non-ASCII letters, and those rules are not modelled.
- Key order and special names: `Object.keys` lists integer-like keys first; assigning 0 to the key "__proto__" reaches the inherited `__proto__` setter, which ignores it, so no key is added and the name never appears in `Object.keys`; and a capability named "hasOwnProperty" would hide the method that the scorer calls, so the call throws once a keyword matches. The model takes capability names to be none of these, and orders keys by first insertion. No name in either vocabulary is one of them.
- `trim` uses the ECMAScript white-space and line-terminator code points. Characters outside the Basic Multilingual Plane are not considered.
- App.AppState.ToggleCapability requires the name to be in the active vocabulary. The page offers only those names as buttons.
- The "Max 3" caption is not enforced by the source, and it is not modelled as a limit.
