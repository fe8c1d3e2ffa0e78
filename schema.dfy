/**
 * The data shapes of the survey backend (backend/app/main.py:31-50):
 * a question, a questionnaire and a generation request, as plain values.
 */
module Schema {
  import opened Wrappers

  /** The four question kinds the backend and its generators use. */
  const SingleChoice: string := "single_choice"
  const MultipleChoice: string := "multiple_choice"
  const Rating: string := "rating"
  const ShortText: string := "short_text"

  const QuestionKinds: set<string> := {SingleChoice, MultipleChoice, Rating, ShortText}

  /**
   * One survey item. The source's `type` field is called `kind` here
   * (`type` is a Dafny keyword); like the source, `kind` is any string,
   * since a language-model answer is not restricted to the four kinds.
   * `required` defaults to false and `options` to absent in the source.
   */
  datatype Question = Question(
    id: string,
    kind: string,
    text: string,
    required: bool,
    options: Option<seq<string>>)

  /** A generated questionnaire; the order of `questions` is display order. */
  datatype Questionnaire = Questionnaire(title: string, intro: string, questions: seq<Question>)

  /**
   * The body of a generation request. The request schema bounds
   * `questionCount` to 3..20 (see `WithinRequestBounds`); the value itself
   * is an unbounded integer, as in Python. `goal` is mandatory; the other
   * fields default to `audience ""`, `questionCount 8`, `tone "neutral"`
   * and `language "zh"`.
   */
  datatype GenerateRequest = GenerateRequest(
    goal: string,
    audience: string,
    questionCount: int,
    tone: string,
    language: string)

  /** The request-schema bound `ge=3, le=20` on `question_count`. */
  predicate WithinRequestBounds(payload: GenerateRequest) {
    3 <= payload.questionCount <= 20
  }

  /** Python's `any(q.required for q in questions)`. */
  predicate AnyRequired(qs: seq<Question>) {
    exists i :: 0 <= i < |qs| && qs[i].required
  }
}
