/**
 * The required-flag normaliser `_auto_required` (backend/app/main.py:218-229).
 * A questionnaire that already has a required question is left alone;
 * otherwise every single-choice and rating question is marked required,
 * and if that marks none, the first question is.
 */
module AutoRequired {
  import opened Wrappers
  import opened Schema

  /** The kinds the normaliser marks required. */
  const RequiredKinds: set<string> := {SingleChoice, Rating}

  /** The for-loop's effect on one question: its flag becomes "kind is single choice or rating". */
  function MarkByKind(q: Question): Question {
    q.(required := q.kind in RequiredKinds)
  }

  /** The specification of the normalised question list. */
  function Normalised(qs: seq<Question>): seq<Question> {
    if AnyRequired(qs) then qs
    else
      var marked := seq(|qs|, i requires 0 <= i < |qs| => MarkByKind(qs[i]));
      if !AnyRequired(marked) && |marked| > 0 then marked[0 := marked[0].(required := true)]
      else marked
  }

  /** `_auto_required` applied to a whole questionnaire: title and intro are untouched. */
  function WithAutoRequired(q: Questionnaire): Questionnaire {
    q.(questions := Normalised(q.questions))
  }

  /**
   * `_auto_required`: the early return, the flag-assigning loop, then the
   * patch of the first question. The source assigns the flags of the
   * question objects in place and returns the same questionnaire; here the
   * list is a local value that the loop updates and the method returns.
   */
  method AutoRequire(questionnaire: Questionnaire) returns (r: Questionnaire)
    ensures r == WithAutoRequired(questionnaire)
  {
    if AnyRequired(questionnaire.questions) {
      return questionnaire;
    }
    var qs := questionnaire.questions;
    var i := 0;
    while i < |qs|
      invariant 0 <= i <= |qs| == |questionnaire.questions|
      invariant forall k :: 0 <= k < i ==> qs[k] == MarkByKind(questionnaire.questions[k])
      invariant forall k :: i <= k < |qs| ==> qs[k] == questionnaire.questions[k]
    {
      qs := qs[i := qs[i].(required := qs[i].kind in RequiredKinds)];
      i := i + 1;
    }
    assert qs == seq(|qs|, k requires 0 <= k < |qs| => MarkByKind(questionnaire.questions[k]));
    if !AnyRequired(qs) && |qs| > 0 {
      qs := qs[0 := qs[0].(required := true)];
    }
    r := questionnaire.(questions := qs);
  }

  /** A questionnaire that already has a required question comes back unchanged. */
  lemma KeepsAlreadyRequired(qs: seq<Question>)
    requires AnyRequired(qs)
    ensures Normalised(qs) == qs
  {
  }

  /**
   * The normaliser changes required flags only: the count, the order and
   * each question's id, kind, text and options are as before.
   */
  lemma OnlyFlagsChange(qs: seq<Question>)
    ensures |Normalised(qs)| == |qs|
    ensures forall i :: 0 <= i < |qs| ==>
      Normalised(qs)[i] == qs[i].(required := Normalised(qs)[i].required)
  {
  }

  /**
   * When nothing was required, question `i` ends up required exactly when
   * its kind is single choice or rating, or when it is the first question
   * and no question has either kind.
   */
  lemma FlagsWhenNoneRequired(qs: seq<Question>)
    requires !AnyRequired(qs)
    ensures forall i :: 0 <= i < |qs| ==>
      (Normalised(qs)[i].required <==>
        qs[i].kind in RequiredKinds
        || (i == 0 && forall j :: 0 <= j < |qs| ==> qs[j].kind !in RequiredKinds))
  {
    var marked := seq(|qs|, i requires 0 <= i < |qs| => MarkByKind(qs[i]));
    if AnyRequired(marked) {
      assert Normalised(qs) == marked;
      var w :| 0 <= w < |marked| && marked[w].required;
      assert qs[w].kind in RequiredKinds;
    } else if |qs| > 0 {
      forall j | 0 <= j < |qs| ensures qs[j].kind !in RequiredKinds {
        assert !marked[j].required;
      }
    }
  }

  /** A flag that was set stays set. */
  lemma NeverClearsAFlag(qs: seq<Question>)
    ensures forall i :: 0 <= i < |qs| && qs[i].required ==> Normalised(qs)[i].required
  {
  }

  /** Every non-empty question list comes back with at least one required question. */
  lemma {:induction false} SomeRequired(qs: seq<Question>)
    requires |qs| > 0
    ensures AnyRequired(Normalised(qs))
  {
    if !AnyRequired(qs) {
      var marked := seq(|qs|, i requires 0 <= i < |qs| => MarkByKind(qs[i]));
      if AnyRequired(marked) {
        assert Normalised(qs) == marked;
      } else {
        assert Normalised(qs)[0].required;
      }
    }
  }

  /** Normalising twice is normalising once. */
  lemma {:induction false} Idempotent(qs: seq<Question>)
    ensures Normalised(Normalised(qs)) == Normalised(qs)
  {
    if |qs| > 0 {
      SomeRequired(qs);
    }
  }
}
