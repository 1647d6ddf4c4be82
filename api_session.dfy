/**
 * The browser's admin session (src/services/api.ts): the token kept under
 * "admin_token" in local storage, the login, logout and isLoggedIn calls of
 * `authApi`, and the Authorization header the request interceptor attaches.
 */
module ApiSession {
  import opened JsBuiltins
  import opened Backend

  /** A stored token counts only when truthy: the empty string counts as no token. */
  predicate HasToken(stored: Option<string>) {
    stored.Some? && stored.value != ""
  }

  /** The Authorization header the interceptor attaches for the stored token, if any. */
  function AuthorizationFor(stored: Option<string>): (h: Option<string>)
    ensures h.Some? <==> HasToken(stored)
    ensures h.Some? ==> StartsWith(h.value, BearerPrefix) && h.value[|BearerPrefix|..] == stored.value
  {
    if HasToken(stored) then Some(BearerPrefix + stored.value) else None
  }

  // ---------------------------------------------------------------------------
  // The header on the wire
  // ---------------------------------------------------------------------------

  /** HTTP whitespace: space, tab, CR and LF, removed from both ends of a header value. */
  predicate IsHttpSpace(c: char) {
    c == ' ' || c == '\t' || c == '\r' || c == '\n'
  }

  /** A character of a byte string; the header setter refuses any other. */
  predicate IsByteChar(c: char) {
    c as int <= 0xFF
  }

  /** A character a normalised header value may hold: a byte other than NUL, CR and LF. */
  predicate IsHeaderChar(c: char) {
    IsByteChar(c) && c != '\0' && c != '\r' && c != '\n'
  }

  function DropLeadingHttpSpace(s: string): (r: string)
    ensures |r| <= |s| && r == s[|s| - |r|..]
    ensures r != [] ==> !IsHttpSpace(r[0])
    ensures forall k :: 0 <= k < |s| && !IsHttpSpace(s[k]) ==> |s| - |r| <= k
  {
    if s != [] && IsHttpSpace(s[0]) then DropLeadingHttpSpace(s[1..]) else s
  }

  function DropTrailingHttpSpace(s: string): (r: string)
    ensures |r| <= |s| && r == s[..|r|]
    ensures r != [] ==> !IsHttpSpace(r[|r| - 1])
    ensures forall k :: 0 <= k < |s| && !IsHttpSpace(s[k]) ==> k < |r|
  {
    if s != [] && IsHttpSpace(s[|s| - 1]) then DropTrailingHttpSpace(s[..|s| - 1]) else s
  }

  /** The header setter's normalisation: HTTP whitespace removed from both ends. */
  function NormalizeHeader(value: string): string {
    DropLeadingHttpSpace(DropTrailingHttpSpace(value))
  }

  /**
   * What the backend receives as the Authorization header when the interceptor
   * sets `value`. The request throws before it is sent (None) when the value
   * holds a character above U+00FF, or when its normalised form still holds
   * NUL, CR or LF; otherwise the normalised value arrives.
   */
  function Delivered(value: string): Option<string> {
    if !(forall i :: 0 <= i < |value| ==> IsByteChar(value[i])) then None
    else if forall i :: 0 <= i < |NormalizeHeader(value)| ==> IsHeaderChar(NormalizeHeader(value)[i])
    then Some(NormalizeHeader(value))
    else None
  }

  /** A token that reaches the backend as it is: header characters only, and no trailing whitespace. */
  predicate HeaderSafe(token: string) {
    && (forall i :: 0 <= i < |token| ==> IsHeaderChar(token[i]))
    && (token != [] ==> !IsHttpSpace(token[|token| - 1]))
  }

  /** A request made with this stored token is sent, and passes `authenticate`. */
  predicate RequestPasses(stored: Option<string>, adminPassword: Option<string>) {
    match AuthorizationFor(stored)
    case None => Authenticate(None, adminPassword)
    case Some(h) => Delivered(h).Some? && Authenticate(Delivered(h), adminPassword)
  }

  /** A value that starts with a non-space, is made of header characters and ends in a safe token arrives unchanged. */
  lemma {:induction false} PrefixedDelivered(prefix: string, token: string)
    requires prefix != [] && !IsHttpSpace(prefix[0])
    requires forall i :: 0 <= i < |prefix| ==> IsHeaderChar(prefix[i])
    requires token != [] && HeaderSafe(token)
    ensures Delivered(prefix + token) == Some(prefix + token)
  {
    var h := prefix + token;
    forall i | 0 <= i < |h| ensures IsHeaderChar(h[i]) {
      if i >= |prefix| {
        assert h[i] == token[i - |prefix|];
      } else {
        assert h[i] == prefix[i];
      }
    }
    assert h[|h| - 1] == token[|token| - 1];
    assert DropTrailingHttpSpace(h) == h;
    assert h[0] == prefix[0];
    assert DropLeadingHttpSpace(h) == h;
    assert NormalizeHeader(h) == h;
  }

  /**
   * Round trip: a header-safe token's header arrives unchanged, and the
   * backend's `replace("Bearer ", "")` recovers exactly the token from it.
   */
  lemma HeaderRoundTrip(token: string)
    requires token != "" && HeaderSafe(token)
    ensures Delivered(BearerPrefix + token) == Some(BearerPrefix + token)
    ensures PresentedPassword(Some(BearerPrefix + token)) == Some(token)
  {
    assert forall i :: 0 <= i < |BearerPrefix| ==> IsHeaderChar(BearerPrefix[i]);
    PrefixedDelivered(BearerPrefix, token);
    BearerHeaderAuthenticates(token, Some(token));
  }

  /** A request made with a header-safe stored token passes `authenticate` exactly when the token is the admin password. */
  lemma StoredTokenAuthenticates(token: string, adminPassword: Option<string>)
    requires token != "" && HeaderSafe(token)
    ensures RequestPasses(Some(token), adminPassword) <==> adminPassword == Some(token)
  {
    HeaderRoundTrip(token);
  }

  /**
   * A token holding a character above U+00FF or NUL, or a CR or LF with more
   * than whitespace after it, makes every protected request throw.
   */
  lemma UnsendableTokenNeverPasses(token: string, i: nat, adminPassword: Option<string>)
    requires i < |token|
    requires || !IsByteChar(token[i]) || token[i] == '\0'
             || ((token[i] == '\r' || token[i] == '\n') && exists j :: i < j < |token| && !IsHttpSpace(token[j]))
    ensures !RequestPasses(Some(token), adminPassword)
  {
    var h := BearerPrefix + token;
    var p := |BearerPrefix| + i;
    assert h[p] == token[i];
    assert h[0] == 'B';
    if !IsByteChar(token[i]) {
      assert Delivered(h).None?;
    } else if token[i] == '\0' {
      UnnormalisedCharRefused(h, p, p);
    } else {
      var j :| i < j < |token| && !IsHttpSpace(token[j]);
      assert h[|BearerPrefix| + j] == token[j];
      UnnormalisedCharRefused(h, p, |BearerPrefix| + j);
    }
  }

  /**
   * A character that is not a header character, with a non-space at or after
   * it and a non-space first character, survives normalisation and is refused.
   */
  lemma UnnormalisedCharRefused(h: string, p: nat, q: nat)
    requires p <= q < |h| && !IsHttpSpace(h[0]) && !IsHttpSpace(h[q]) && !IsHeaderChar(h[p])
    ensures Delivered(h).None?
  {
    if forall k :: 0 <= k < |h| ==> IsByteChar(h[k]) {
      var r1 := DropTrailingHttpSpace(h);
      assert q < |r1|;
      assert r1[0] == h[0];
      assert DropLeadingHttpSpace(r1) == r1;
      assert NormalizeHeader(h)[p] == h[p];
    }
  }

  /** Trailing HTTP whitespace is removed in transit. */
  lemma TrailingHttpSpaceDropped(x: string, c: char)
    requires Delivered(x) == Some(x) && IsHttpSpace(c)
    ensures Delivered(x + [c]) == Some(x)
  {
    var h := x + [c];
    forall i | 0 <= i < |h| ensures IsByteChar(h[i]) {
      if i < |x| {
        assert h[i] == x[i];
      }
    }
    assert h[..|h| - 1] == x;
    assert DropTrailingHttpSpace(h) == DropTrailingHttpSpace(x);
    assert NormalizeHeader(h) == NormalizeHeader(x);
  }

  /**
   * A password ending in a space logs in, since the login compares the body
   * exactly, but its header loses the space and every protected request is refused.
   */
  lemma TrailingSpacePasswordLocksOut(word: string)
    requires word != "" && HeaderSafe(word)
    ensures OutcomeOf(CheckPassword(Text(word + " "), Some(word + " "))) == Responded(true)
    ensures !RequestPasses(Some(word + " "), Some(word + " "))
  {
    var x := BearerPrefix + word;
    assert |word + " "| > 0;
    assert BearerPrefix + (word + " ") == x + [' '];
    assert AuthorizationFor(Some(word + " ")) == Some(x + [' ']);
    assert forall i :: 0 <= i < |BearerPrefix| ==> IsHeaderChar(BearerPrefix[i]);
    PrefixedDelivered(BearerPrefix, word);
    TrailingHttpSpaceDropped(x, ' ');
    assert Delivered(x + [' ']) == Some(x);
    BearerHeaderAuthenticates(word, Some(word + " "));
    assert |word| != |word + " "|;
  }

  /** A stored token with a trailing newline is sent without it, so it passes for the password without the newline. */
  lemma TrailingNewlineTokenPasses(word: string)
    requires word != "" && HeaderSafe(word)
    ensures RequestPasses(Some(word + "\n"), Some(word))
  {
    var x := BearerPrefix + word;
    assert |word + "\n"| > 0;
    assert BearerPrefix + (word + "\n") == x + ['\n'];
    assert AuthorizationFor(Some(word + "\n")) == Some(x + ['\n']);
    assert forall i :: 0 <= i < |BearerPrefix| ==> IsHeaderChar(BearerPrefix[i]);
    PrefixedDelivered(BearerPrefix, word);
    TrailingHttpSpaceDropped(x, '\n');
    assert Delivered(x + ['\n']) == Some(x);
    BearerHeaderAuthenticates(word, Some(word));
  }

  /** Without a token no header is sent, and `authenticate` lets the request through only when no admin password is set. */
  lemma NoTokenAuthenticates(stored: Option<string>, adminPassword: Option<string>)
    requires !HasToken(stored)
    ensures RequestPasses(stored, adminPassword) <==> adminPassword.None?
  {
  }

  /** What `api.post("/auth")` gives the login: a response body's `success`, or a thrown error. */
  datatype LoginOutcome = Responded(success: bool) | Threw

  /** axios resolves on status 200 and throws on an error status. */
  function OutcomeOf(reply: Reply<bool>): LoginOutcome {
    match reply
    case Ok(success) => Responded(success)
    case Fail(_, _) => Threw
  }

  /** The `admin_token` entry of local storage. */
  class AuthStore {
    var token: Option<string>

    constructor (token: Option<string>)
      ensures this.token == token
    {
      this.token := token;
    }

    /** `authApi.isLoggedIn()` */
    function IsLoggedIn(): (r: bool)
      reads this
      ensures r <==> HasToken(token)
    {
      token.Some? && token.value != ""
    }

    /** `authApi.login(password)`: the password itself becomes the token on success. */
    method Login(password: string, outcome: LoginOutcome) returns (ok: bool)
      modifies this
      ensures ok <==> outcome == Responded(true)
      ensures ok ==> token == Some(password)
      ensures !ok ==> token == old(token)
    {
      match outcome {
        case Responded(success) =>
          if success {
            token := Some(password);
            return true;
          }
          return false;
        case Threw =>
          return false;
      }
    }

    /** `authApi.logout()` */
    method Logout()
      modifies this
      ensures token.None? && !IsLoggedIn()
    {
      token := None;
    }

    /** The header this store makes the interceptor attach. */
    function Authorization(): (h: Option<string>)
      reads this
      ensures h.Some? <==> IsLoggedIn()
      ensures h.Some? ==> PresentedPassword(h) == token
    {
      if token.Some? && token.value != "" then
        ReplaceFirstOfPrefix(BearerPrefix, token.value, "");
        assert "" + token.value == token.value;
        AuthorizationFor(token)
      else AuthorizationFor(token)
    }
  }

  /**
   * End to end: a login the backend accepts with a non-empty, header-safe
   * password leaves a token whose requests pass `authenticate`.
   */
  lemma AcceptedLoginAuthenticates(password: string, adminPassword: Option<string>)
    requires password != "" && HeaderSafe(password)
    requires OutcomeOf(CheckPassword(Text(password), adminPassword)) == Responded(true)
    ensures RequestPasses(Some(password), adminPassword)
  {
    StoredTokenAuthenticates(password, adminPassword);
  }

  /** An accepted login with the empty password stores a token that does not count as logged in. */
  lemma EmptyPasswordNotLoggedIn(adminPassword: Option<string>)
    requires adminPassword == Some("")
    ensures OutcomeOf(CheckPassword(Text(""), adminPassword)) == Responded(true)
    ensures !HasToken(Some(""))
  {
  }
}
