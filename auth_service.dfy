/** The placeholder API authentication: a request is accepted when its
    Authorization header carries a bearer scheme, and a token is a string
    built from the user id and the current time. The time is passed in. */
module AuthService {
  import opened Wrappers
  import Decimal

  /** The parts of an incoming request. Header names are stored in lower case,
      as a Fetch `Headers` object normalises them, so that lookup by name is
      case-insensitive. */
  datatype Request = Request(httpMethod: string, url: string, headers: map<string, string>, body: string)

  function LowerAscii(c: char): char {
    if 'A' <= c <= 'Z' then (c as int + 32) as char else c
  }

  function ToLowerAscii(s: string): (r: string)
    ensures |r| == |s| && forall i :: 0 <= i < |s| ==> r[i] == LowerAscii(s[i])
  {
    seq(|s|, i requires 0 <= i < |s| => LowerAscii(s[i]))
  }

  /** `request.headers.get(name)`: the value, or None (`null`) when absent. */
  function GetHeader(request: Request, name: string): (r: Option<string>)
    ensures r.Some? <==> ToLowerAscii(name) in request.headers
    ensures r.Some? ==> r.value == request.headers[ToLowerAscii(name)]
  {
    var key := ToLowerAscii(name);
    if key in request.headers then Some(request.headers[key]) else None
  }

  const BearerPrefix: string := "Bearer "

  predicate StartsWith(s: string, prefix: string) {
    |prefix| <= |s| && s[..|prefix|] == prefix
  }

  /** The check `validateApiRequest` makes of the Authorization header value:
      it must be present, non-empty and begin with "Bearer ". The non-empty
      test adds nothing, since "" does not begin with "Bearer ". */
  predicate AcceptsAuthHeader(authHeader: Option<string>): (ok: bool)
    ensures ok <==> authHeader.Some? && StartsWith(authHeader.value, BearerPrefix)
  {
    !(authHeader.None? || authHeader.value == "" || !StartsWith(authHeader.value, BearerPrefix))
  }

  /** `validateApiRequest(request)`: true exactly when the request carries an
      Authorization header "Bearer " + token, for some token. */
  predicate ValidateApiRequest(request: Request): (ok: bool)
    ensures ok <==> exists token :: GetHeader(request, "Authorization") == Some(BearerPrefix + token)
  {
    var authHeader := GetHeader(request, "Authorization");
    AcceptsIffBearer(authHeader);
    AcceptsAuthHeader(authHeader)
  }

  /** A header is accepted exactly when it is "Bearer " followed by any token,
      the empty token included; the token is never inspected. */
  lemma AcceptsIffBearer(authHeader: Option<string>)
    ensures AcceptsAuthHeader(authHeader) <==> exists token :: authHeader == Some(BearerPrefix + token)
  {
    if AcceptsAuthHeader(authHeader) {
      var h := authHeader.value;
      assert h == BearerPrefix + h[|BearerPrefix|..];
    }
    if exists token :: authHeader == Some(BearerPrefix + token) {
      var token :| authHeader == Some(BearerPrefix + token);
      assert authHeader.value[..|BearerPrefix|] == BearerPrefix;
    }
  }

  /** A request without an Authorization header is rejected. */
  lemma MissingHeaderRejected(request: Request)
    requires "authorization" !in request.headers
    ensures !ValidateApiRequest(request)
  {
    assert ToLowerAscii("Authorization") == "authorization";
  }

  /** The prefix is matched exactly: another case, or no trailing space, is
      rejected; any token after it, even an empty one, is accepted. */
  lemma PrefixMatchedExactly(token: string)
    ensures !AcceptsAuthHeader(Some("bearer " + token))
    ensures !AcceptsAuthHeader(Some("Bearer"))
    ensures !AcceptsAuthHeader(Some(""))
    ensures AcceptsAuthHeader(Some("Bearer " + token))
    ensures AcceptsAuthHeader(Some("Bearer "))
  {
  }

  /** Two requests with the same Authorization header value get the same
      verdict, whatever else (method, URL, body, other headers) differs. */
  lemma VerdictDependsOnlyOnAuthHeader(a: Request, b: Request)
    requires GetHeader(a, "Authorization") == GetHeader(b, "Authorization")
    ensures ValidateApiRequest(a) == ValidateApiRequest(b)
  {
  }

  /** Header names are case-insensitive: two names that differ only in the
      case of ASCII letters look up the same header, so an "AUTHORIZATION"
      header is the Authorization header. */
  lemma HeaderNameCaseInsensitive(request: Request, name1: string, name2: string)
    requires ToLowerAscii(name1) == ToLowerAscii(name2)
    ensures GetHeader(request, name1) == GetHeader(request, name2)
    ensures GetHeader(request, "AUTHORIZATION") == GetHeader(request, "Authorization")
  {
    assert ToLowerAscii("AUTHORIZATION") == "authorization";
    assert ToLowerAscii("Authorization") == "authorization";
  }

  const TokenPrefix: string := "token_for_"

  /** `generateApiToken(userId)` at the instant `now` (milliseconds since the
      epoch, as `Date.now()` reads them). */
  function GenerateApiToken(userId: string, now: Decimal.SafeInteger): (token: string)
    ensures StartsWith(token, TokenPrefix) && |token| > |TokenPrefix| + |userId| + 1
    ensures token[|TokenPrefix|..|TokenPrefix| + |userId|] == userId
  {
    TokenPrefix + userId + "_" + Decimal.IntToDecimal(now)
  }

  /** The last position of `c` in `s`. */
  function LastIndexOf(s: string, c: char): (r: Option<nat>)
    ensures r.Some? ==> r.value < |s| && s[r.value] == c && c !in s[r.value + 1..]
    ensures r.None? ==> c !in s
  {
    if s == [] then None
    else if s[|s| - 1] == c then Some(|s| - 1)
    else
      var r := LastIndexOf(s[..|s| - 1], c);
      assert r.Some? ==> s[r.value + 1..] == s[..|s| - 1][r.value + 1..] + [s[|s| - 1]];
      r
  }

  lemma LastIndexOfBefore(x: string, c: char, y: string)
    requires c !in y
    ensures LastIndexOf(x + [c] + y, c) == Some(|x|)
  {
    var s := x + [c] + y;
    assert s[|x|] == c;
    assert s[|x| + 1..] == y;
  }

  /** Reads a generated token back into the user id and the time. The time is
      after the last '_', so a user id that itself holds '_' is read whole. */
  function ParseApiToken(token: string): (r: Option<(string, int)>)
  {
    if !StartsWith(token, TokenPrefix) then None
    else
      var rest := token[|TokenPrefix|..];
      match LastIndexOf(rest, '_')
      case None => None
      case Some(i) =>
        match Decimal.ParseInt(rest[i + 1..])
        case None => None
        case Some(t) => Some((rest[..i], t))
  }

  /** Every token can be read back into the user id and time it was built from. */
  lemma TokenRoundTrip(userId: string, now: Decimal.SafeInteger)
    ensures ParseApiToken(GenerateApiToken(userId, now)) == Some((userId, now))
  {
    var d := Decimal.IntToDecimal(now);
    var token := GenerateApiToken(userId, now);
    var rest := token[|TokenPrefix|..];
    assert rest == userId + ['_'] + d;
    LastIndexOfBefore(userId, '_', d);
    assert rest[..|userId|] == userId;
    assert rest[|userId| + 1..] == d;
    Decimal.IntToDecimalRoundTrip(now);
  }

  /** The same user at the same instant gets the same token, and different
      users, or different instants, get different tokens. */
  lemma TokenDeterminesUserAndTime(u1: string, t1: Decimal.SafeInteger, u2: string, t2: Decimal.SafeInteger)
    ensures GenerateApiToken(u1, t1) == GenerateApiToken(u2, t2) <==> u1 == u2 && t1 == t2
  {
    TokenRoundTrip(u1, t1);
    TokenRoundTrip(u2, t2);
  }

  /** A generated token, sent as a bearer credential, passes validation. */
  lemma GeneratedTokenAccepted(request: Request, userId: string, now: Decimal.SafeInteger)
    requires GetHeader(request, "Authorization") == Some(BearerPrefix + GenerateApiToken(userId, now))
    ensures ValidateApiRequest(request)
  {
  }
}
