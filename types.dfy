/** The records and enumerations the application passes around (types.ts). */
module Types {

  /** Which capability vocabulary is in effect. */
  datatype AppMode = GP | Hospital

  /** One rule of the static table: any keyword found in the note votes for every listed capability. */
  datatype KeywordMapping = KeywordMapping(keywords: seq<string>, capabilities: seq<string>)

  /** A capability together with the number of votes it collected. */
  datatype KeywordScore = KeywordScore(capability: string, score: nat)

  /** The four sections the language model writes for an appraisal. */
  datatype AppraisalOutput = AppraisalOutput(
    summary: string,
    capabilities: string,
    reflection: string,
    learningGoals: string)

  datatype Option<+T> = None | Some(value: T)
}
