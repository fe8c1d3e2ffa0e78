# Survey backend: questionnaire generation and account input checks

This project models the backend of an AI survey generator in Dafny. The backend is a FastAPI service in
`backend/app/main.py`. Five parts are modelled:

- **Data shapes** (`Schema`). `Question`, `Questionnaire` and `GenerateRequest` are values. The source's
  `type` field is called `kind` here, because `type` is a Dafny keyword.
- **The fallback generator** `_fallback_generate` (`Fallback`). It fills up to six questions from a fixed
  template table, in table order. It pads the rest with one fixed, optional short-text question. The
  title is the goal followed by "问卷", and the intro text is fixed. Ids come from an id supply
  `makeId: nat -> ShortHexId`. The k-th id drawn is `makeId(k)`, and every id has the shape of
  `uuid4().hex[:8]`. The method is proved against the specification function `FallbackQuestionnaire`.
- **The required-flag normaliser** `_auto_required` (`AutoRequired`). It is proved against the
  specification function `Normalised`. Lemmas state its frame, its flag rule and its idempotence.
- **The generation policy** `generate` (`Generation`). The API-key lookup is a parameter. The
  language-model call `_agno_generate` is an oracle that returns a questionnaire or `None` when it raises.
- **Account input checks** (`Accounts`). These are the nickname sanitiser, the password rule, and the
  `register`/`login` checks. They also cover the parsing of the `Authorization: Bearer` header in
  `_get_current_user`, up to the `sub` claim. The token decoder is an oracle.

Three details of the fallback generator are worth knowing:
- It takes a fixed six-row template table in order, then pads with one fixed `short_text` question. It
  does not rotate through the question kinds.
- Its rating template offers the options `0` to `10`.
- Its ids are random 8-hex-digit strings that it never checks for uniqueness, so the model claims no uniqueness.

## Model

| member | source | states |
|---|---|---|
| `Fallback.FallbackGenerate` | backend/app/main.py:112-178 | The template loop followed by the padding loop builds exactly the specified fallback questionnaire. Question k takes the k-th drawn id. |
| `Fallback.TemplatesWellFormed` | backend/app/main.py:115-152 | Every template has one of the four kinds. It carries options exactly when its kind is not `short_text`, and those options are non-empty. |
| `Fallback.FallbackShape` | backend/app/main.py:112-178 | For a non-negative count the output has exactly `question_count` questions. Its title is the goal followed by "问卷", and its intro is the fixed text. |
| `Fallback.FallbackTemplateOrder` | backend/app/main.py:155-165 | For `i < min(question_count, 6)`, question i has template i's kind, text, options and required flag, in table order, and id `makeId(i)`. |
| `Fallback.FallbackPadding` | backend/app/main.py:167-176 | Every question at index 6 or above is `short_text`, not required, without options, and carries the fixed padding text. |
| `Fallback.FallbackKindsAndOptions` | backend/app/main.py:115-176 | Every fallback question has one of the four kinds. Options are present, and non-empty, exactly when the kind is not `short_text`. |
| `Fallback.FallbackIds` | backend/app/main.py:108-109 | Each question's id is the one drawn for its position and is eight lower-case hex digits. |
| `Fallback.FallbackRequiredFlags` | backend/app/main.py:115-165 | Exactly the first two questions, when present, are required. So a fallback output with at least one question already has a required question. |
| `AutoRequired.AutoRequire` | backend/app/main.py:218-229 | The early return, the flag loop and the first-question patch together produce `Normalised` of the questions. Title and intro are untouched. |
| `AutoRequired.KeepsAlreadyRequired` | backend/app/main.py:219-220 | A question list that already has a required question is returned unchanged. |
| `AutoRequired.OnlyFlagsChange` | backend/app/main.py:222-229 | Only `required` flags change. The count, the order and each question's id, kind, text and options are preserved. |
| `AutoRequired.FlagsWhenNoneRequired` | backend/app/main.py:222-227 | When nothing was required, question i becomes required iff its kind is `single_choice` or `rating`, or it is the first question and no question has either kind. |
| `AutoRequired.NeverClearsAFlag` | backend/app/main.py:218-229 | A question that was required stays required. |
| `AutoRequired.SomeRequired` | backend/app/main.py:226-227 | Every non-empty question list comes back with at least one required question. |
| `AutoRequired.Idempotent` | backend/app/main.py:218-229 | Normalising twice gives the same list as normalising once. |
| `Generation.NormalisedFallbackUnchanged` | backend/app/main.py:236 | `_auto_required` is the identity on any fallback output. |
| `Generation.Generate` | backend/app/main.py:232-243 | `generate` never fails. Without a key, or when the model raises, it returns the fallback itself, with `question_count` questions. Otherwise it returns the normalised model answer. A non-empty result always has a required question. |
| `Accounts.StripLeading` | backend/app/main.py:246-247 | The result is the suffix left once the leading whitespace-only prefix is dropped, and it does not start with whitespace. |
| `Accounts.StripTrailing` | backend/app/main.py:246-247 | The result is the prefix left once the trailing whitespace-only suffix is dropped, and it does not end with whitespace. |
| `Accounts.Strip` | backend/app/main.py:246-247 | `_sanitize_nickname` (`str.strip`): the middle of the input between two whitespace-only ends. The result has no whitespace at either end. |
| `Accounts.StripTrimmed` | backend/app/main.py:246-247 | A string without whitespace at its ends is returned unchanged. |
| `Accounts.StripIdempotent` | backend/app/main.py:246-247 | Stripping twice gives the same string as stripping once. |
| `Accounts.IndexOf` | backend/app/main.py:269 | Finds the first occurrence of a character, or reports that there is none. |
| `Accounts.SplitOnce` | backend/app/main.py:269 | `split(sep, 1)` gives one part iff `sep` does not occur. Otherwise it gives exactly two parts that rejoin with `sep` to the input, and the first part contains no `sep`. |
| `Accounts.BearerToken` | backend/app/main.py:269 | For a header starting with "Bearer ", the token after the first space is the text after the prefix, whitespace-trimmed. |
| `Accounts.CurrentUserSubject` | backend/app/main.py:262-284 | A header that is absent, empty or not prefixed "Bearer " gets 401 "Not authenticated", and nothing else does. A JWT error or a payload without a non-empty `sub` gets 401 "Invalid token". Other decoder errors propagate. The result is a success exactly when the trimmed token decodes to claims with a non-empty `sub`, and it then carries that `sub`. |
| `Accounts.RejectsBeforeDecoding` | backend/app/main.py:265-268 | A non-Bearer header is refused the same way whatever the decoder would do. |
| `Accounts.ValidatePassword` | backend/app/main.py:250-255 | Passes iff the password has at least 6 characters. Otherwise it fails with 400 "Password must be at least 6 characters". |
| `Accounts.RegisterChecks` | backend/app/main.py:294-301 | Succeeds iff the trimmed nickname has at least 2 characters and the password at least 6. The nickname is checked first. On success it yields the trimmed nickname, which has no edge whitespace. |
| `Accounts.LoginChecks` | backend/app/main.py:322-324 | Succeeds iff the password has at least 6 characters, yielding the trimmed nickname. There is no nickname length check. |
| `Accounts.RegisteredNicknameLogsIn` | backend/app/main.py:293-331 | Logging in with the nickname as registered, and the same password, passes the login checks and looks up that same nickname. |
| `Accounts.RegisterPasswordRuleImpliesLogin` | backend/app/main.py:321-324 | Any nickname and password that `register` accepts, `login` accepts, with the same result. |

## Left out

- `_agno_generate` (backend/app/main.py:181-215) calls a language model through external libraries. Here it is only an oracle that returns a questionnaire or fails. The model does not bound how many questions that answer has.
- `_make_id` randomness (uuid4) is replaced by a supplied sequence of 8-hex-digit ids. Nothing claims the ids are distinct, because the source does not ensure it.
- `AutoRequired.AutoRequire`: the source assigns the flags of the question objects in place and returns the same questionnaire object. The model returns a new value. Within `generate` the argument is a fresh temporary, so no caller can observe the difference. Aliasing is not modelled.
- `Accounts.CurrentUserSubject`: claim values are strings, and "falsy `sub`" means missing or empty. Other JSON claim types are not modelled. The conversion `int(user_id)` and the `db.get` lookup after it are left out as database I/O.
- `register` and `login` beyond their input checks: password hashing, token creation, the database insert, the 409 on a duplicate nickname, and the credential lookup. These are persistence and foreign crypto calls.
- `backend/app/auth_utils.py` and `backend/app/db.py` are thin wrappers over hashing, JWT and SQLAlchemy. They are not part of this model.
- FastAPI application setup, CORS origins, logging and `/health` are framework configuration.
- The request-schema bound `3 <= question_count <= 20` is enforced by the web framework before `generate` runs, so it is a precondition of `Generation.Generate`. The fallback generator itself is modelled for every integer count: a negative count gives no questions.
