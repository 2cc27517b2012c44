/** The CSRF and login helpers of js/security.js: random tokens over a
    62-character alphabet, `getCookie` over the cookie header string, the
    double-submit check of a form's token against the cookie's, and the
    24-hour freshness test of the login.

    The cookie header (`document.cookie`), the stored login timestamp and the
    clock are parameters; writing cookies and local storage is not modelled. */
module Security {
  import opened Wrappers
  import opened JsBuiltins

  // ---------------------------------------------------------------------------
  // Configuration

  const CsrfTokenLength: nat := 32
  const CsrfCookieName := "X-CSRF-TOKEN"
  const AuthTokenLength: nat := 64
  const AuthCookieName := "auth_token"
  /** How long a login stays valid, in milliseconds: 24 hours. */
  const AuthLifetime: int := 24 * 60 * 60 * 1000

  /** `ABCDEFGHIJKLMNOPQRSTUVWXYZabcdefghijklmnopqrstuvwxyz0123456789`. */
  const Charset := UpperCase() + LowerCase() + Digits()

  /** An element of a `Uint32Array`. */
  type Word = x: int | 0 <= x < 0x1_0000_0000

  predicate IsAlphanumeric(c: char) {
    'A' <= c <= 'Z' || 'a' <= c <= 'z' || '0' <= c <= '9'
  }

  /** A string every character of which is a letter or a digit. */
  predicate IsToken(s: string) {
    forall i | 0 <= i < |s| :: IsAlphanumeric(s[i])
  }

  /** The token alphabet is exactly the 62 ASCII letters and digits. */
  lemma CharsetIsAlphanumerics()
    ensures |Charset| == 62
    ensures IsToken(Charset)
    ensures forall c | IsAlphanumeric(c) :: c in Charset
  {
    forall c | IsAlphanumeric(c) ensures c in Charset {
      if 'A' <= c <= 'Z' {
        assert Charset[c as int - 'A' as int] == c;
      } else if 'a' <= c <= 'z' {
        assert LowerCase()[c as int - 'a' as int] == c;
        assert Charset[26 + (c as int - 'a' as int)] == c;
      } else {
        assert Digits()[c as int - '0' as int] == c;
        assert Charset[52 + (c as int - '0' as int)] == c;
      }
    }
  }

  function UpperCase(): seq<char> {
    seq(26, i requires 0 <= i < 26 => ('A' as int + i) as char)
  }

  function LowerCase(): seq<char> {
    seq(26, i requires 0 <= i < 26 => ('a' as int + i) as char)
  }

  function Digits(): seq<char> {
    seq(10, i requires 0 <= i < 10 => ('0' as int + i) as char)
  }

  // ---------------------------------------------------------------------------
  // Tokens

  /** `generateCSRFToken(length)` when `crypto.getRandomValues` is available:
      `values` is the `Uint32Array` of `length` random words it fills, and
      character i of the token is `charset[values[i] % 62]`. */
  method GenerateCsrfToken(values: seq<Word>, length: nat := CsrfTokenLength) returns (token: string)
    requires |values| == length
    ensures |token| == length
    ensures forall i | 0 <= i < length :: token[i] == Charset[values[i] % |Charset|]
    ensures IsToken(token)
  {
    CharsetIsAlphanumerics();
    token := "";
    for i := 0 to length
      invariant |token| == i
      invariant forall k | 0 <= k < i :: token[k] == Charset[values[k] % |Charset|]
    {
      token := token + [Charset[values[i] % |Charset|]];
    }
  }

  /** `setAuthenticationToken`: a 64-character token for the `auth_token`
      cookie and the login time, `Date.now().toString()`, for local storage. */
  method SetAuthenticationToken(values: seq<Word>, now: nat) returns (authToken: string, authTimestamp: string)
    requires |values| == AuthTokenLength
    ensures |authToken| == AuthTokenLength && IsToken(authToken)
    ensures ParseInt(authTimestamp) == Some(now)
  {
    authToken := GenerateCsrfToken(values, AuthTokenLength);
    authTimestamp := NatToString(now);
    ParseIntOfNatToString(now);
  }

  // ---------------------------------------------------------------------------
  // getCookie

  /** What follows `prefix` in the first of `segments` that starts with it
      once trimmed; `None` when none does. */
  function FirstValue(segments: seq<string>, prefix: string): Option<string> {
    if |segments| == 0 then None
    else
      var cookie := Trim(segments[0]);
      if StartsWith(cookie, prefix) then Some(cookie[|prefix|..])
      else FirstValue(segments[1..], prefix)
  }

  /** The value `getCookie(name)` returns for the cookie header `header`. */
  function CookieValue(header: string, name: string): Option<string> {
    FirstValue(Split(header, ';'), name + "=")
  }

  /** `getCookie(name)`: split the header on `;`, trim each piece, and return
      what follows `name=` in the first piece that starts with it; `null`
      when no piece does. */
  method GetCookie(header: string, name: string) returns (r: Option<string>)
    ensures r == CookieValue(header, name)
  {
    var cookieName := name + "=";
    var cookies := Split(header, ';');
    for i := 0 to |cookies|
      invariant FirstValue(cookies[i..], cookieName) == FirstValue(cookies, cookieName)
    {
      assert cookies[i..][1..] == cookies[i + 1..];
      var cookie := Trim(cookies[i]);
      if StartsWith(cookie, cookieName) {
        return Some(cookie[|cookieName|..]);
      }
    }
    return None;
  }

  // ---------------------------------------------------------------------------
  // Cookie headers built from name/value pairs

  datatype Cookie = Cookie(name: string, value: string)

  /** A pair the browser can list unambiguously: no `;` anywhere, no `=` in
      the name, no whitespace at the start of the name or the end of the
      value. */
  predicate Listable(c: Cookie) {
    && ';' !in c.name && '=' !in c.name && ';' !in c.value
    && (c.name == [] || !IsWhitespace(c.name[0]))
    && (c.value == [] || !IsWhitespace(c.value[|c.value| - 1]))
  }

  function PairText(c: Cookie): string {
    c.name + "=" + c.value
  }

  /** The pieces of `document.cookie` between the `;` separators. */
  function Pieces(cookies: seq<Cookie>): seq<string> {
    seq(|cookies|, i requires 0 <= i < |cookies| => (if i == 0 then "" else " ") + PairText(cookies[i]))
  }

  /** `document.cookie` for the given pairs: `k1=v1; k2=v2; ...`. */
  function CookieHeader(cookies: seq<Cookie>): string {
    if |cookies| == 0 then "" else Join(Pieces(cookies), ';')
  }

  /** Reference lookup: the value of the first pair named `name`. */
  function Lookup(cookies: seq<Cookie>, name: string): Option<string> {
    if |cookies| == 0 then None
    else if cookies[0].name == name then Some(cookies[0].value)
    else Lookup(cookies[1..], name)
  }

  lemma {:induction false} LookupAt(cookies: seq<Cookie>, name: string, k: nat)
    requires k <= |cookies|
    requires forall j | 0 <= j < k :: cookies[j].name != name
    requires k < |cookies| ==> cookies[k].name == name
    ensures Lookup(cookies, name) == if k < |cookies| then Some(cookies[k].value) else None
  {
    if |cookies| > 0 && k > 0 {
      LookupAt(cookies[1..], name, k - 1);
    }
  }

  /** A listed pair starts with `name=` exactly when it is named `name`. */
  lemma PrefixMatchesName(c: Cookie, name: string)
    requires '=' !in c.name && '=' !in name
    ensures StartsWith(PairText(c), name + "=") <==> c.name == name
  {
    var t, p := PairText(c), name + "=";
    if StartsWith(t, p) {
      if |c.name| < |name| {
        PrefixAgreesAt(t, p, |c.name|);
        assert false;
      } else if |c.name| > |name| {
        PrefixAgreesAt(t, p, |name|);
        assert false;
      } else {
        assert t[..|name|] == c.name;
        assert p[..|name|] == name;
      }
    }
  }

  lemma PrefixAgreesAt(s: string, prefix: string, i: nat)
    requires StartsWith(s, prefix) && i < |prefix|
    ensures s[i] == prefix[i]
  {
    assert s[..|prefix|][i] == s[i];
  }

  /** The text of a listable pair has nothing for `trim` to remove. */
  lemma PairTextTrimmed(c: Cookie)
    requires Listable(c)
    ensures Trim(PairText(c)) == PairText(c)
  {
    var t := PairText(c);
    assert t[0] == if c.name == [] then '=' else c.name[0];
    assert t[|t| - 1] == if c.value == [] then '=' else c.value[|c.value| - 1];
    TrimUnpadded(t);
  }

  /** Trimming a piece of the header gives back its pair. */
  lemma TrimPiece(cookies: seq<Cookie>, i: nat)
    requires i < |cookies| && Listable(cookies[i])
    ensures Trim(Pieces(cookies)[i]) == PairText(cookies[i])
  {
    var t := PairText(cookies[i]);
    PairTextTrimmed(cookies[i]);
    if i > 0 {
      TrimLeadingSpace(t);
      assert Pieces(cookies)[i] == " " + t;
    } else {
      assert Pieces(cookies)[i] == t;
    }
  }

  /** Segments that trim to the texts of listable pairs: the first value
      after `name=` is the value of the first pair named `name`. */
  lemma {:induction false} FirstValueOfPairs(segments: seq<string>, cookies: seq<Cookie>, name: string)
    requires |segments| == |cookies|
    requires forall i | 0 <= i < |cookies| :: Listable(cookies[i]) && Trim(segments[i]) == PairText(cookies[i])
    requires '=' !in name
    ensures FirstValue(segments, name + "=") == Lookup(cookies, name)
  {
    if |cookies| > 0 {
      PrefixMatchesName(cookies[0], name);
      if cookies[0].name == name {
        assert PairText(cookies[0])[|name| + 1..] == cookies[0].value;
      } else {
        FirstValueOfPairs(segments[1..], cookies[1..], name);
      }
    }
  }

  /** `getCookie` agrees with the reference lookup on every header made of
      listable pairs: it returns the value of the first pair with the
      requested name, and `null` when there is none. */
  lemma GetCookieFindsFirstPair(cookies: seq<Cookie>, name: string)
    requires forall i | 0 <= i < |cookies| :: Listable(cookies[i])
    requires '=' !in name
    ensures CookieValue(CookieHeader(cookies), name) == Lookup(cookies, name)
  {
    if |cookies| == 0 {
      assert Split("", ';') == [""];
      assert Trim("") == "" && !StartsWith("", name + "=");
      assert [""][1..] == [];
      assert FirstValue([""], name + "=") == FirstValue([], name + "=");
    } else {
      var pieces := Pieces(cookies);
      forall i | 0 <= i < |pieces| ensures ';' !in pieces[i] {
        assert ';' !in PairText(cookies[i]);
      }
      SplitJoin(pieces, ';');
      forall i | 0 <= i < |cookies| ensures Trim(pieces[i]) == PairText(cookies[i]) {
        TrimPiece(cookies, i);
      }
      FirstValueOfPairs(pieces, cookies, name);
    }
  }

  // ---------------------------------------------------------------------------
  // validateFormSubmission

  /** `validateFormSubmission` lets a form through unless its token is
      missing or empty, the `X-CSRF-TOKEN` cookie is missing or empty, or the
      two differ. */
  function SubmissionAllowed(formToken: Option<string>, cookieHeader: string): (allowed: bool)
    ensures allowed <==> formToken.Some? && formToken.value != "" && CookieValue(cookieHeader, CsrfCookieName) == formToken
  {
    var cookieToken := CookieValue(cookieHeader, CsrfCookieName);
    !(!Truthy(formToken) || !Truthy(cookieToken) || formToken.value != cookieToken.value)
  }

  /** A token cookie among listable cookies, none before it with the same
      name, is what `getCookie` reads back. */
  lemma IssuedCookieFound(cookies: seq<Cookie>, at: nat, name: string, token: string)
    requires at < |cookies| && cookies[at] == Cookie(name, token)
    requires ';' !in name && '=' !in name && (name == [] || !IsWhitespace(name[0]))
    requires token != [] && IsToken(token)
    requires forall i | 0 <= i < |cookies| && i != at :: Listable(cookies[i])
    requires forall i | 0 <= i < at :: cookies[i].name != name
    ensures CookieValue(CookieHeader(cookies), name) == Some(token)
  {
    assert IsAlphanumeric(token[|token| - 1]);
    forall i | 0 <= i < |token| ensures token[i] != ';' {
      assert IsAlphanumeric(token[i]);
    }
    assert Listable(cookies[at]);
    GetCookieFindsFirstPair(cookies, name);
    LookupAt(cookies, name, at);
  }

  /** The double-submit check accepts a form exactly when it carries the
      token the `X-CSRF-TOKEN` cookie was set to; any other token, or none,
      is blocked. */
  lemma CsrfCheckAcceptsOnlyIssuedToken(cookies: seq<Cookie>, at: nat, token: string, formToken: Option<string>)
    requires |token| == CsrfTokenLength && IsToken(token)
    requires at < |cookies| && cookies[at] == Cookie(CsrfCookieName, token)
    requires forall i | 0 <= i < |cookies| && i != at :: Listable(cookies[i])
    requires forall i | 0 <= i < at :: cookies[i].name != CsrfCookieName
    ensures SubmissionAllowed(formToken, CookieHeader(cookies)) <==> formToken == Some(token)
  {
    IssuedCookieFound(cookies, at, CsrfCookieName, token);
  }

  // ---------------------------------------------------------------------------
  // checkAuthenticationStatus

  /** `checkAuthenticationStatus`: an `auth_token` cookie and a stored login
      time are both present and non-empty, and less than 24 hours have passed
      since that time (`parseInt` of it; `NaN` never passes). */
  function Authenticated(cookieHeader: string, authTimestamp: Option<string>, now: int): (ok: bool)
    ensures ok ==> Truthy(CookieValue(cookieHeader, AuthCookieName)) && Truthy(authTimestamp)
    ensures authTimestamp.Some? && ParseInt(authTimestamp.value).None? ==> !ok
    ensures Truthy(CookieValue(cookieHeader, AuthCookieName)) && Truthy(authTimestamp) && ParseInt(authTimestamp.value).Some? ==>
      (ok <==> now - ParseInt(authTimestamp.value).value < AuthLifetime)
  {
    var authToken := CookieValue(cookieHeader, AuthCookieName);
    && Truthy(authToken)
    && Truthy(authTimestamp)
    && var loggedInAt := ParseInt(authTimestamp.value);
       loggedInAt.Some? && now - loggedInAt.value < AuthLifetime
  }

  /** After a login at time `t` (the token of `setAuthenticationToken` in the
      `auth_token` cookie and `t.toString()` in storage), the user counts as
      authenticated at time `now` exactly when less than 24 hours have
      passed: an age of exactly 24 hours is already expired. */
  lemma LoginFreshFor24Hours(cookies: seq<Cookie>, at: nat, token: string, t: nat, now: int)
    requires |token| == AuthTokenLength && IsToken(token)
    requires at < |cookies| && cookies[at] == Cookie(AuthCookieName, token)
    requires forall i | 0 <= i < |cookies| && i != at :: Listable(cookies[i])
    requires forall i | 0 <= i < at :: cookies[i].name != AuthCookieName
    ensures Authenticated(CookieHeader(cookies), Some(NatToString(t)), now) <==> now - t < AuthLifetime
  {
    IssuedCookieFound(cookies, at, AuthCookieName, token);
    ParseIntOfNatToString(t);
  }

  /** Without a stored login time, or without the cookie, nobody is
      authenticated, whatever the clock says. */
  lemma NoLoginNoAccess(cookieHeader: string, authTimestamp: Option<string>, now: int)
    requires authTimestamp.None? || CookieValue(cookieHeader, AuthCookieName).None?
    ensures !Authenticated(cookieHeader, authTimestamp, now)
  {
  }
}
