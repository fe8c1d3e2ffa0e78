/**
 * The input checks of the account endpoints (backend/app/main.py:246-301,
 * 321-324): nickname sanitising, the password length rule, and the parsing
 * of the `Authorization: Bearer <token>` header up to the decoded payload's
 * `sub` claim.
 *
 * Token decoding (`decode_access_token`) is the oracle `decode`; password
 * hashing, token issuing and every database access are not part of this
 * model. Lengths are Python `len`, which counts code points, as `|s|` does.
 */
module Accounts {
  import opened Wrappers

  /** Why a request is refused (the error carried by `Result.Failure`): an HTTP error, or a non-JWT exception re-raised by the decoder path. */
  datatype RequestError = HttpError(status: nat, detail: string) | Reraised

  const NotAuthenticated: RequestError := HttpError(401, "Not authenticated")
  const InvalidToken: RequestError := HttpError(401, "Invalid token")
  const NicknameTooShort: RequestError := HttpError(400, "Nickname must be at least 2 characters")
  const PasswordTooShort: RequestError := HttpError(400, "Password must be at least 6 characters")

  const MinNicknameLength: nat := 2
  const MinPasswordLength: nat := 6

  // ---------------------------------------------------------------------
  // Python's str.strip()
  // ---------------------------------------------------------------------

  /** The characters for which Python's `str.isspace()` holds; `str.strip()` removes these. */
  predicate IsSpace(c: char) {
    ('\U{9}' <= c <= '\U{D}') || ('\U{1C}' <= c <= '\U{20}') || c == '\U{85}' || c == '\U{A0}'
    || c == '\U{1680}' || ('\U{2000}' <= c <= '\U{200A}') || c == '\U{2028}' || c == '\U{2029}'
    || c == '\U{202F}' || c == '\U{205F}' || c == '\U{3000}'
  }

  predicate AllSpace(s: string) {
    forall i :: 0 <= i < |s| ==> IsSpace(s[i])
  }

  /** `s.lstrip()`: the suffix left after dropping leading whitespace. */
  function StripLeading(s: string): (r: string)
    ensures |r| <= |s| && r == s[|s| - |r|..]
    ensures AllSpace(s[..|s| - |r|])
    ensures r == [] || !IsSpace(r[0])
  {
    if |s| > 0 && IsSpace(s[0]) then
      var r := StripLeading(s[1..]);
      assert s[..|s| - |r|] == [s[0]] + s[1..][..|s| - 1 - |r|];
      r
    else s
  }

  /** `s.rstrip()`: the prefix left after dropping trailing whitespace. */
  function StripTrailing(s: string): (r: string)
    ensures |r| <= |s| && r == s[..|r|]
    ensures AllSpace(s[|r|..])
    ensures r == [] || !IsSpace(r[|r| - 1])
  {
    if |s| > 0 && IsSpace(s[|s| - 1]) then
      var r := StripTrailing(s[..|s| - 1]);
      assert s[|r|..] == s[..|s| - 1][|r|..] + [s[|s| - 1]];
      r
    else s
  }

  /** How many whitespace characters `s.strip()` drops at the front. */
  function LeadingSpaceCount(s: string): (n: nat)
    ensures n <= |s|
  {
    |s| - |StripLeading(s)|
  }

  /**
   * `s.strip()`, which is all `_sanitize_nickname` does: the middle of `s`
   * between two whitespace-only ends, itself without whitespace at either end.
   */
  function Strip(s: string): (r: string)
    ensures LeadingSpaceCount(s) + |r| <= |s|
    ensures r == s[LeadingSpaceCount(s)..LeadingSpaceCount(s) + |r|]
    ensures AllSpace(s[..LeadingSpaceCount(s)]) && AllSpace(s[LeadingSpaceCount(s) + |r|..])
    ensures r == [] || (!IsSpace(r[0]) && !IsSpace(r[|r| - 1]))
  {
    var t := StripLeading(s);
    StripPartsOf(s, t, LeadingSpaceCount(s));
    StripTrailing(t)
  }

  /** The facts `Strip` promises, from those of its two halves. */
  lemma StripPartsOf(s: string, t: string, n: nat)
    requires n <= |s| && t == s[n..]
    requires AllSpace(s[..n]) && (t == [] || !IsSpace(t[0]))
    ensures var r := StripTrailing(t);
      n + |r| <= |s| && r == s[n..n + |r|] && AllSpace(s[n + |r|..])
      && (r == [] || (!IsSpace(r[0]) && !IsSpace(r[|r| - 1])))
  {
    var r := StripTrailing(t);
    assert s[n..n + |r|] == t[..|r|];
    assert s[n + |r|..] == t[|r|..];
    if r != [] {
      assert r[0] == t[0];
    }
  }

  /** Stripping a string without whitespace at its ends changes nothing. */
  lemma {:induction false} StripTrimmed(s: string)
    requires s == [] || (!IsSpace(s[0]) && !IsSpace(s[|s| - 1]))
    ensures Strip(s) == s
  {
  }

  /** Stripping twice is stripping once. */
  lemma StripIdempotent(s: string)
    ensures Strip(Strip(s)) == Strip(s)
  {
    StripTrimmed(Strip(s));
  }

  // ---------------------------------------------------------------------
  // The Authorization header (`_get_current_user`)
  // ---------------------------------------------------------------------

  const BearerPrefix: string := "Bearer "

  /** Python's `s.startswith(prefix)`. */
  predicate StartsWith(s: string, prefix: string) {
    |prefix| <= |s| && s[..|prefix|] == prefix
  }

  /** The header is present, non-empty and starts with `"Bearer "`. */
  predicate IsBearerHeader(authorization: Option<string>) {
    authorization.Some? && authorization.value != "" && StartsWith(authorization.value, BearerPrefix)
  }

  /** The position of the first `c` in `s`, if any (Python's `s.find(c)`). */
  function IndexOf(s: string, c: char): (r: Option<nat>)
    ensures r.Some? ==> r.value < |s| && s[r.value] == c
    ensures r.Some? ==> forall k :: 0 <= k < r.value ==> s[k] != c
    ensures r.None? ==> forall k :: 0 <= k < |s| ==> s[k] != c
  {
    if |s| == 0 then None
    else if s[0] == c then Some(0)
    else match IndexOf(s[1..], c)
      case None => None
      case Some(k) => Some(k + 1)
  }

  /**
   * Python's `s.split(sep, 1)`: the text before and after the first `sep`,
   * or `s` alone when it holds no `sep`. Joining the parts back with `sep`
   * gives `s`.
   */
  function SplitOnce(s: string, sep: char): (parts: seq<string>)
    ensures |parts| == 1 <==> sep !in s
    ensures sep in s ==> |parts| == 2
    ensures |parts| == 1 ==> parts[0] == s
    ensures |parts| == 2 ==> parts[0] + [sep] + parts[1] == s && sep !in parts[0]
  {
    match IndexOf(s, sep)
    case None => [s]
    case Some(i) => assert s[..i] + [sep] + s[i + 1..] == s; [s[..i], s[i + 1..]]
  }

  /**
   * `authorization.split(" ", 1)[1].strip()` for a header with the Bearer
   * prefix: the split is at the prefix's own space, so the token is the
   * text after the prefix, whitespace-trimmed.
   */
  function BearerToken(header: string): (token: string)
    requires StartsWith(header, BearerPrefix)
    ensures token == Strip(header[|BearerPrefix|..])
  {
    assert header[6] == ' ';
    assert ' ' !in header[..6] by {
      assert header[..6] == BearerPrefix[..6];
    }
    var parts := SplitOnce(header, ' ');
    assert |parts| == 2 && |parts[0]| == 6;
    assert parts[1] == header[7..] by {
      assert (parts[0] + [' '] + parts[1])[7..] == parts[1];
    }
    Strip(parts[1])
  }

  /** What the token decoder yields: the payload's claims, a JWT error, or any other exception. */
  datatype DecodeResult = Claims(claims: map<string, string>) | JwtError | OtherError

  /**
   * `_get_current_user` up to the user lookup: the `sub` claim of the
   * decoded Bearer token. A missing or non-Bearer header is rejected before
   * any decoding; a JWT error or a payload without a non-empty `sub` is an
   * invalid token; any other decoder exception propagates.
   */
  function CurrentUserSubject(authorization: Option<string>, decode: string -> DecodeResult): (r: Result<string, RequestError>)
    ensures r == Failure(NotAuthenticated) <==> !IsBearerHeader(authorization)
    ensures IsBearerHeader(authorization) ==>
      var payload := decode(BearerToken(authorization.value));
      (r == Failure(InvalidToken) <==>
        payload.JwtError? || (payload.Claims? && ("sub" !in payload.claims || payload.claims["sub"] == "")))
      && (r == Failure(Reraised) <==> payload.OtherError?)
    ensures r.Success? ==>
      IsBearerHeader(authorization)
      && decode(Strip(authorization.value[|BearerPrefix|..])).Claims?
      && var claims := decode(Strip(authorization.value[|BearerPrefix|..])).claims;
      "sub" in claims && r.value == claims["sub"] && r.value != ""
    ensures IsBearerHeader(authorization)
      && decode(BearerToken(authorization.value)).Claims?
      && "sub" in decode(BearerToken(authorization.value)).claims
      && decode(BearerToken(authorization.value)).claims["sub"] != ""
      ==> r == Success(decode(BearerToken(authorization.value)).claims["sub"])
  {
    if authorization.None? || authorization.value == "" || !StartsWith(authorization.value, BearerPrefix) then
      Failure(NotAuthenticated)
    else
      match decode(BearerToken(authorization.value))
      case JwtError => Failure(InvalidToken)
      case OtherError => Failure(Reraised)
      case Claims(claims) =>
        if "sub" !in claims || claims["sub"] == "" then Failure(InvalidToken)
        else Success(claims["sub"])
  }

  /** A header without the Bearer prefix is refused whatever the decoder would say: it is never consulted. */
  lemma RejectsBeforeDecoding(authorization: Option<string>, decode1: string -> DecodeResult, decode2: string -> DecodeResult)
    requires !IsBearerHeader(authorization)
    ensures CurrentUserSubject(authorization, decode1) == CurrentUserSubject(authorization, decode2)
    ensures CurrentUserSubject(authorization, decode1) == Failure(NotAuthenticated)
  {
  }

  // ---------------------------------------------------------------------
  // register / login input checks
  // ---------------------------------------------------------------------

  /** `_validate_password`: passwords shorter than six characters are refused with 400. */
  function ValidatePassword(password: string): (o: Outcome<RequestError>)
    ensures o.Pass? <==> |password| >= MinPasswordLength
    ensures o.Fail? ==> o.error == PasswordTooShort
  {
    if |password| < 6 then Fail(PasswordTooShort) else Pass
  }

  /**
   * `register` up to the database insert: the sanitised nickname, once it is
   * at least two characters long and the password passes its check. The
   * nickname is checked first.
   */
  function RegisterChecks(nickname: string, password: string): (r: Result<string, RequestError>)
    ensures r.Success? <==> |Strip(nickname)| >= MinNicknameLength && |password| >= MinPasswordLength
    ensures |Strip(nickname)| < MinNicknameLength ==> r == Failure(NicknameTooShort)
    ensures |Strip(nickname)| >= MinNicknameLength && |password| < MinPasswordLength ==> r == Failure(PasswordTooShort)
    ensures r.Success? ==>
      (r.value == Strip(nickname) && |r.value| >= MinNicknameLength
       && !IsSpace(r.value[0]) && !IsSpace(r.value[|r.value| - 1]))
  {
    var name := Strip(nickname);
    if |name| < 2 then Failure(NicknameTooShort)
    else match ValidatePassword(password)
      case Fail(e) => Failure(e)
      case Pass => Success(name)
  }

  /** `login` up to the user lookup: the sanitised nickname, once the password passes its check. */
  function LoginChecks(nickname: string, password: string): (r: Result<string, RequestError>)
    ensures r.Success? <==> |password| >= MinPasswordLength
    ensures r.Success? ==> r.value == Strip(nickname)
    ensures r.Failure? ==> r.error == PasswordTooShort
  {
    var name := Strip(nickname);
    match ValidatePassword(password)
    case Fail(e) => Failure(e)
    case Pass => Success(name)
  }

  /**
   * Logging in with the nickname as stored at registration and the same
   * password passes the login checks and looks up that same nickname.
   */
  lemma {:induction false} RegisteredNicknameLogsIn(nickname: string, password: string)
    ensures RegisterChecks(nickname, password).Success? ==>
      LoginChecks(RegisterChecks(nickname, password).value, password) == RegisterChecks(nickname, password)
  {
    StripIdempotent(nickname);
  }

  /** A password that register accepts, login accepts. */
  lemma RegisterPasswordRuleImpliesLogin(nickname: string, password: string)
    ensures RegisterChecks(nickname, password).Success? ==>
      LoginChecks(nickname, password) == RegisterChecks(nickname, password)
  {
  }
}
