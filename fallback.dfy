/**
 * The deterministic fallback generator `_fallback_generate`
 * (backend/app/main.py:108-178): a fixed table of six template questions,
 * taken in order, then padding with one fixed short-text question until
 * the requested count is reached.
 *
 * Ids come from `uuid4().hex[:8]`; here they come from a supply
 * `makeId: nat -> ShortHexId`, `makeId(k)` being the id drawn by the
 * k-th call. Nothing makes the drawn ids distinct, so nothing here claims so.
 */
module Fallback {
  import opened Wrappers
  import opened Schema

  const HexDigits: string := "0123456789abcdef"

  /** The shape of `uuid4().hex[:8]`: eight lower-case hexadecimal digits. */
  predicate IsShortHex(s: string) {
    |s| == 8 && forall i :: 0 <= i < |s| ==> s[i] in HexDigits
  }

  type ShortHexId = s: string | IsShortHex(s) witness "00000000"

  const TitleSuffix: string := "问卷"
  const Intro: string := "感谢参与本次调研，问卷大约需要 3-5 分钟完成。"
  const PaddingText: string := "请描述您最真实的感受。"

  /** One row of the template table: kind, text, options, required. */
  datatype Template = Template(kind: string, text: string, options: Option<seq<string>>, required: bool)

  const Templates: seq<Template> := [
    Template(SingleChoice, "您对当前体验的整体满意度是？",
      Some(["非常满意", "满意", "一般", "不满意", "非常不满意"]), true),
    Template(Rating, "您愿意推荐给朋友的可能性有多大？",
      Some(["0", "1", "2", "3", "4", "5", "6", "7", "8", "9", "10"]), true),
    Template(MultipleChoice, "您最看重的功能点是？",
      Some(["易用性", "性能", "外观设计", "价格", "客服支持"]), false),
    Template(ShortText, "您希望我们优先改进的地方是？", None, false),
    Template(SingleChoice, "您使用该产品的频率是？",
      Some(["每天", "每周 3-4 次", "每周 1-2 次", "偶尔", "首次使用"]), false),
    Template(ShortText, "还有哪些建议或需求想告诉我们？", None, false)
  ]

  /** The question the generator builds from template `t`, with the id it drew. */
  function FromTemplate(t: Template, id: string): Question {
    Question(id, t.kind, t.text, t.required, t.options)
  }

  /** The padding question appended once the templates are used up. */
  function Padding(id: string): Question {
    Question(id, ShortText, PaddingText, false, None)
  }

  /** The question at position `idx` of the fallback output, given its id. */
  function FallbackQuestion(idx: nat, id: string): Question {
    if idx < |Templates| then FromTemplate(Templates[idx], id) else Padding(id)
  }

  /** How many questions the two loops produce: `question_count`, or none if it is negative. */
  function FallbackCount(questionCount: int): nat {
    if questionCount < 0 then 0 else questionCount
  }

  /** The specification of the fallback output. */
  function FallbackQuestionnaire(payload: GenerateRequest, makeId: nat -> ShortHexId): Questionnaire {
    Questionnaire(
      payload.goal + TitleSuffix,
      Intro,
      seq(FallbackCount(payload.questionCount), i requires 0 <= i => FallbackQuestion(i, makeId(i))))
  }

  /**
   * `_fallback_generate`: a loop over the first `min(question_count, 6)`
   * templates, then a loop padding with the fixed short-text question.
   * Each appended question takes the next id from the supply.
   */
  method FallbackGenerate(payload: GenerateRequest, makeId: nat -> ShortHexId) returns (q: Questionnaire)
    ensures q == FallbackQuestionnaire(payload, makeId)
  {
    var title := payload.goal + TitleSuffix;
    var questions: seq<Question> := [];
    var limit := if payload.questionCount < |Templates| then payload.questionCount else |Templates|;
    var idx := 0;
    // `range(limit)` is empty when `limit` is negative.
    while idx < limit
      invariant 0 <= idx == |questions|
      invariant limit <= 0 ==> idx == 0
      invariant limit > 0 ==> idx <= limit
      invariant forall k :: 0 <= k < idx ==> questions[k] == FallbackQuestion(k, makeId(k))
    {
      var t := Templates[idx];
      questions := questions + [FromTemplate(t, makeId(|questions|))];
      idx := idx + 1;
    }
    while |questions| < payload.questionCount
      invariant |questions| <= FallbackCount(payload.questionCount)
      invariant forall k :: 0 <= k < |questions| ==> questions[k] == FallbackQuestion(k, makeId(k))
      decreases payload.questionCount - |questions|
    {
      questions := questions + [Padding(makeId(|questions|))];
    }
    q := Questionnaire(title, Intro, questions);
  }

  /** Every template carries options exactly when its kind is not short text, and they are non-empty. */
  lemma {:induction false} TemplatesWellFormed(i: nat)
    requires i < |Templates|
    ensures Templates[i].kind in QuestionKinds
    ensures Templates[i].options.Some? <==> Templates[i].kind != ShortText
    ensures Templates[i].options.Some? ==> |Templates[i].options.value| > 0
  {
    if i == 0 {
    } else if i == 1 {
    } else if i == 2 {
    } else if i == 3 {
    } else if i == 4 {
    } else {
      assert i == 5;
    }
  }

  /** The output has exactly `question_count` questions, the goal-derived title and the fixed intro. */
  lemma FallbackShape(payload: GenerateRequest, makeId: nat -> ShortHexId)
    requires payload.questionCount >= 0
    ensures |FallbackQuestionnaire(payload, makeId).questions| == payload.questionCount
    ensures FallbackQuestionnaire(payload, makeId).title == payload.goal + "问卷"
    ensures FallbackQuestionnaire(payload, makeId).intro == Intro
  {
  }

  /** The first `min(question_count, 6)` questions are the templates, in table order. */
  lemma FallbackTemplateOrder(payload: GenerateRequest, makeId: nat -> ShortHexId, i: nat)
    requires i < payload.questionCount && i < |Templates|
    ensures var q := FallbackQuestionnaire(payload, makeId).questions[i];
      q.id == makeId(i) && q.kind == Templates[i].kind && q.text == Templates[i].text
      && q.options == Templates[i].options && q.required == Templates[i].required
  {
  }

  /** Every question past the sixth is the optional, option-less padding question. */
  lemma FallbackPadding(payload: GenerateRequest, makeId: nat -> ShortHexId, i: nat)
    requires 6 <= i < payload.questionCount
    ensures var q := FallbackQuestionnaire(payload, makeId).questions[i];
      q.id == makeId(i) && q.kind == ShortText && q.text == PaddingText
      && !q.required && q.options.None?
  {
  }

  /** Every fallback question has one of the four kinds, and options exactly when it is not short text. */
  lemma FallbackKindsAndOptions(payload: GenerateRequest, makeId: nat -> ShortHexId, i: nat)
    requires i < |FallbackQuestionnaire(payload, makeId).questions|
    ensures var q := FallbackQuestionnaire(payload, makeId).questions[i];
      q.kind in QuestionKinds && (q.options.Some? <==> q.kind != ShortText)
      && (q.options.Some? ==> |q.options.value| > 0)
  {
    var q := FallbackQuestionnaire(payload, makeId).questions[i];
    assert q == FallbackQuestion(i, makeId(i));
    if i < |Templates| {
      TemplatesWellFormed(i);
    } else {
      assert q == Padding(makeId(i));
    }
  }

  /** Every id is the one drawn for that position and has the `uuid4().hex[:8]` shape. */
  lemma FallbackIds(payload: GenerateRequest, makeId: nat -> ShortHexId, i: nat)
    requires i < |FallbackQuestionnaire(payload, makeId).questions|
    ensures FallbackQuestionnaire(payload, makeId).questions[i].id == makeId(i)
    ensures IsShortHex(FallbackQuestionnaire(payload, makeId).questions[i].id)
  {
  }

  /**
   * Exactly the first two questions (when present) are required; in
   * particular the first question is required whenever there is one.
   */
  lemma FallbackRequiredFlags(payload: GenerateRequest, makeId: nat -> ShortHexId)
    ensures forall i :: 0 <= i < |FallbackQuestionnaire(payload, makeId).questions| ==>
      (FallbackQuestionnaire(payload, makeId).questions[i].required <==> i < 2)
    ensures payload.questionCount >= 1 ==>
      AnyRequired(FallbackQuestionnaire(payload, makeId).questions)
  {
    var qs := FallbackQuestionnaire(payload, makeId).questions;
    forall i | 0 <= i < |qs| ensures qs[i].required <==> i < 2 {
      assert qs[i] == FallbackQuestion(i, makeId(i));
      if i < |Templates| {
        assert qs[i].required == Templates[i].required;
        if i >= 2 {
          assert i == 2 || i == 3 || i == 4 || i == 5;
        }
      }
    }
    if payload.questionCount >= 1 {
      assert qs[0].required;
    }
  }
}
