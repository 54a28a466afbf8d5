/**
 * The follow-up question box (components/SuggestionsBox.tsx). The user types an
 * answer under some of the suggested questions; "Add Answers to Note" turns every
 * question with a non-blank answer into a quoted block and hands the blocks,
 * joined, to the parent, or cancels when no question was answered.
 */
module SuggestionsBox {
  import opened Types
  import opened Strings

  /** What `handleApply` asks of the parent: `onCancel()`, or `onApply(text)`. */
  datatype Outcome = Cancel | Apply(text: string)

  /** The answers typed so far, keyed by question index (`Record<number, string>`). */
  type Answers = map<nat, string>

  /** Question `i` has an answer whose trimmed text is not empty. */
  predicate Answered(answers: Answers, i: nat)
  {
    i in answers && Trim(answers[i]) != ""
  }

  /** The quoted question-and-answer block added to the note for one answered question. */
  function Block(question: string, answer: string): (r: string)
    ensures |r| == |question| + |answer| + 31
    ensures r[..17] == "\n\n> AI Question: " && r[|r| - |answer|..] == answer
  {
    "\n\n> AI Question: " + question + "\n> My Answer: " + answer
  }

  /** What the `map` callback gives question `i`: nothing, or its block with the trimmed answer. */
  function Part(questions: seq<string>, answers: Answers, i: nat): (r: Option<string>)
    requires i < |questions|
    ensures r.Some? <==> Answered(answers, i)
    ensures r.Some? ==> r.value == Block(questions[i], Trim(answers[i]))
  {
    if i in answers && Trim(answers[i]) != "" then Some(Block(questions[i], Trim(answers[i]))) else None
  }

  /** `questions.map(...)`: one entry per question, in question order. */
  function Parts(questions: seq<string>, answers: Answers): (r: seq<Option<string>>)
    ensures |r| == |questions|
    ensures forall i :: 0 <= i < |r| ==> r[i] == Part(questions, answers, i)
  {
    seq(|questions|, i requires 0 <= i < |questions| => Part(questions, answers, i))
  }

  /** The positions of `xs` that hold a value, in increasing order. */
  function Indices<T>(xs: seq<Option<T>>): (idx: seq<nat>)
    ensures forall k :: 0 <= k < |idx| ==> idx[k] < |xs| && xs[idx[k]].Some?
    ensures forall i :: 0 <= i < |xs| && xs[i].Some? ==> i in idx
    ensures forall k, l :: 0 <= k < l < |idx| ==> idx[k] < idx[l]
  {
    if xs == [] then []
    else
      var n := |xs| - 1;
      var front := Indices(xs[..n]);
      assert forall k :: 0 <= k < |front| ==> xs[..n][front[k]] == xs[front[k]];
      assert forall i :: 0 <= i < n ==> xs[..n][i] == xs[i];
      front + (if xs[n].Some? then [n] else [])
  }

  /**
   * `.filter(Boolean)`: the values held, in their order. Every block is a
   * non-empty string, so dropping the empty strings as well changes nothing.
   */
  function Present<T>(xs: seq<Option<T>>): (r: seq<T>)
    ensures |r| <= |xs|
  {
    if xs == [] then []
    else
      var n := |xs| - 1;
      Present(xs[..n]) + (if xs[n].Some? then [xs[n].value] else [])
  }

  /** The values `Present` keeps are those at the positions `Indices` lists, in the same order. */
  lemma {:induction false} PresentSpec<T>(xs: seq<Option<T>>)
    ensures |Present(xs)| == |Indices(xs)|
    ensures forall k :: 0 <= k < |Indices(xs)| ==> Present(xs)[k] == xs[Indices(xs)[k]].value
    decreases |xs|
  {
    if xs != [] {
      var n := |xs| - 1;
      var pre := xs[..n];
      var ip, fp := Indices(pre), Present(pre);
      var tail := if xs[n].Some? then [xs[n].value] else [];
      var tailIdx: seq<nat> := if xs[n].Some? then [n] else [];
      assert Indices(xs) == ip + tailIdx;
      assert Present(xs) == fp + tail;
      PresentSpec(pre);
      forall k | 0 <= k < |Indices(xs)| ensures Present(xs)[k] == xs[Indices(xs)[k]].value {
        if k < |ip| {
          assert Present(xs)[k] == fp[k] && Indices(xs)[k] == ip[k];
          assert pre[ip[k]] == xs[ip[k]];
        } else {
          assert Present(xs)[k] == xs[n].value && Indices(xs)[k] == n;
        }
      }
    }
  }

  /** `parts.join('')`: the parts one after the other with nothing in between. */
  function Concat(parts: seq<string>): (r: string)
    ensures |parts| == 1 ==> r == parts[0]
  {
    if parts == [] then "" else Concat(parts[..|parts| - 1]) + parts[|parts| - 1]
  }

  /** `handleApply`. */
  function HandleApply(questions: seq<string>, answers: Answers): Outcome
  {
    var parts := Present(Parts(questions, answers));
    if |parts| == 0 then Cancel else Apply(Concat(parts))
  }

  /** The input's `onChange`: answer `i` becomes `value`. */
  function SetAnswer(answers: Answers, i: nat, value: string): (r: Answers)
    ensures i in r && r[i] == value
    ensures forall j :: j != i ==> (j in r <==> j in answers)
    ensures forall j :: j != i && j in answers ==> r[j] == answers[j]
  {
    answers[i := value]
  }

  /** The question indices with a non-blank answer, lowest first. */
  function AnsweredIndices(questions: seq<string>, answers: Answers): (idx: seq<nat>)
    ensures forall i: nat :: i in idx <==> i < |questions| && Answered(answers, i)
    ensures forall k, l :: 0 <= k < l < |idx| ==> idx[k] < idx[l]
  {
    Indices(Parts(questions, answers))
  }

  /**
   * The parts are exactly the blocks of the answered questions, one each, in
   * question order, each with its answer trimmed.
   */
  lemma PartsAreAnsweredBlocks(questions: seq<string>, answers: Answers)
    ensures var parts := Present(Parts(questions, answers));
      var idx := AnsweredIndices(questions, answers);
      |parts| == |idx|
      && forall k :: 0 <= k < |parts| ==> parts[k] == Block(questions[idx[k]], Trim(answers[idx[k]]))
  {
    PresentSpec(Parts(questions, answers));
  }

  /** The box cancels exactly when no question has a non-blank answer. */
  lemma CancelIffNothingAnswered(questions: seq<string>, answers: Answers)
    ensures HandleApply(questions, answers) == Cancel <==>
      forall i :: 0 <= i < |questions| ==> !Answered(answers, i)
  {
    var idx := AnsweredIndices(questions, answers);
    PresentSpec(Parts(questions, answers));
    if idx != [] {
      assert idx[0] in idx;
    }
  }

  /**
   * When something was answered, the text handed to the parent is the blocks
   * of the answered questions in question order with nothing in between.
   */
  lemma ApplyText(questions: seq<string>, answers: Answers)
    requires exists i :: 0 <= i < |questions| && Answered(answers, i)
    ensures HandleApply(questions, answers) == Apply(Concat(Present(Parts(questions, answers))))
  {
    CancelIffNothingAnswered(questions, answers);
  }

  /** Filtering works entry by entry from the front. */
  lemma PresentAppend<T>(xs: seq<Option<T>>, x: Option<T>)
    ensures Present(xs + [x]) == Present(xs) + (if x.Some? then [x.value] else [])
  {
    assert (xs + [x])[..|xs|] == xs;
  }

  /** Joining works part by part from the front. */
  lemma ConcatAppend(parts: seq<string>, p: string)
    ensures Concat(parts + [p]) == Concat(parts) + p
  {
    assert (parts + [p])[..|parts|] == parts;
  }

  /**
   * One more question adds its block after the text of the others when it is
   * answered, and nothing otherwise.
   */
  lemma PartsAppend(questions: seq<string>, q: string, answers: Answers)
    ensures var before := Concat(Present(Parts(questions, answers)));
      var after := Concat(Present(Parts(questions + [q], answers)));
      after == if Answered(answers, |questions|) then before + Block(q, Trim(answers[|questions|])) else before
  {
    var n := |questions|;
    var x := Part(questions + [q], answers, n);
    assert Parts(questions + [q], answers) == Parts(questions, answers) + [x];
    PresentAppend(Parts(questions, answers), x);
    if x.Some? {
      ConcatAppend(Present(Parts(questions, answers)), x.value);
    } else {
      assert Present(Parts(questions, answers)) + [] == Present(Parts(questions, answers));
    }
  }

  /** Answers stored under indices past the last question never change the outcome. */
  lemma ExtraAnswersIgnored(questions: seq<string>, answers: Answers, others: Answers)
    requires forall i :: i < |questions| ==> (i in answers <==> i in others)
    requires forall i :: i < |questions| && i in answers ==> answers[i] == others[i]
    ensures HandleApply(questions, answers) == HandleApply(questions, others)
  {
    assert Parts(questions, answers) == Parts(questions, others);
  }

  /** Editing the answer to one question touches only that question's part. */
  lemma SetAnswerTouchesOnePart(questions: seq<string>, answers: Answers, i: nat, value: string)
    ensures var before := Parts(questions, answers);
      var after := Parts(questions, SetAnswer(answers, i, value));
      forall j :: 0 <= j < |questions| && j != i ==> after[j] == before[j]
  {
  }

  /** Blanking out the answer to a question takes its block out of the text. */
  lemma BlankAnswerDropsBlock(questions: seq<string>, answers: Answers, i: nat, value: string)
    requires i < |questions|
    requires Trim(value) == ""
    ensures i !in AnsweredIndices(questions, SetAnswer(answers, i, value))
  {
  }
}
