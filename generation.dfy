/**
 * The `/generate` endpoint's policy (backend/app/main.py:232-243): use the
 * language-model generator when an API key is configured and it succeeds,
 * otherwise the deterministic fallback; normalise required flags either way.
 *
 * The environment lookup of `OPENAI_API_KEY` is the parameter `apiKey`; the
 * language-model call `_agno_generate` is the oracle `agno`, which returns
 * `None` where the call raises.
 */
module Generation {
  import opened Wrappers
  import opened Schema
  import opened Fallback
  import opened AutoRequired

  /** `os.getenv("OPENAI_API_KEY")` is truthy: present and not empty. */
  predicate KeyConfigured(apiKey: Option<string>) {
    apiKey.Some? && apiKey.value != ""
  }

  /** The endpoint serves the fallback: no key, or the model path raised. */
  predicate FallsBack(apiKey: Option<string>, modelAnswer: Option<Questionnaire>) {
    !KeyConfigured(apiKey) || modelAnswer.None?
  }

  /** The normaliser leaves the fallback output as it is: its first question is already required. */
  lemma {:induction false} NormalisedFallbackUnchanged(payload: GenerateRequest, makeId: nat -> ShortHexId)
    ensures WithAutoRequired(FallbackQuestionnaire(payload, makeId)) == FallbackQuestionnaire(payload, makeId)
  {
    var qs := FallbackQuestionnaire(payload, makeId).questions;
    if |qs| > 0 {
      FallbackRequiredFlags(payload, makeId);
      KeepsAlreadyRequired(qs);
    } else {
      assert Normalised(qs) == [];
    }
  }

  /**
   * `generate`: never fails. Without a key, or when the model path raises,
   * it serves the normalised fallback, which is the fallback itself;
   * otherwise it serves the normalised model answer.
   */
  method Generate(
    payload: GenerateRequest,
    apiKey: Option<string>,
    agno: GenerateRequest -> Option<Questionnaire>,
    makeId: nat -> ShortHexId)
    returns (r: Questionnaire)
    requires WithinRequestBounds(payload)
    ensures FallsBack(apiKey, agno(payload)) ==> r == FallbackQuestionnaire(payload, makeId)
    ensures FallsBack(apiKey, agno(payload)) ==> |r.questions| == payload.questionCount
    ensures !FallsBack(apiKey, agno(payload)) ==> r == WithAutoRequired(agno(payload).value)
    ensures |r.questions| > 0 ==> AnyRequired(r.questions)
  {
    if !KeyConfigured(apiKey) {
      var fallback := FallbackGenerate(payload, makeId);
      r := AutoRequire(fallback);
    } else {
      var answer := agno(payload);
      match answer
      case Some(generated) =>
        r := AutoRequire(generated);
      case None =>
        var fallback := FallbackGenerate(payload, makeId);
        r := AutoRequire(fallback);
    }
    NormalisedFallbackUnchanged(payload, makeId);
    FallbackShape(payload, makeId);
    if |r.questions| > 0 {
      if FallsBack(apiKey, agno(payload)) {
        FallbackRequiredFlags(payload, makeId);
      } else {
        SomeRequired(agno(payload).value.questions);
      }
    }
  }
}
