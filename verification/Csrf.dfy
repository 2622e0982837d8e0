/** CSRF tokens: minting, verification, and the token a page carries from one request to the
    next (internal/platform/security/csrf.go). */
module Csrf {
  import opened Wrappers
  import opened Text

  newtype byte = x: int | 0 <= x < 256

  const COOKIE_BASE := "racp_csrf"
  const COOKIE_HOST := "__Host-racp_csrf"
  const RANDOM_LEN := 32
  const URL_ENCODED := "application/x-www-form-urlencoded"
  const MULTIPART := "multipart/form-data"

  // ---------- unpadded base64url, section 5 of RFC 4648 ----------

  newtype sextet = x: int | 0 <= x < 64

  function Digit(n: sextet): (c: char)
    ensures c != '.' && Value(c) == n
  {
    if n < 26 then ('A' as int + n as int) as char
    else if n < 52 then ('a' as int + n as int - 26) as char
    else if n < 62 then ('0' as int + n as int - 52) as char
    else if n == 62 then '-' else '_'
  }

  function Value(c: char): sextet {
    if 'A' <= c <= 'Z' then (c as int - 'A' as int) as sextet
    else if 'a' <= c <= 'z' then (c as int - 'a' as int + 26) as sextet
    else if '0' <= c <= '9' then (c as int - '0' as int + 52) as sextet
    else if c == '-' then 62 else 63
  }

  /** Three bytes as four groups of six bits, and back. */
  function Sextets(a: byte, b: byte, c: byte): (s: (sextet, sextet, sextet, sextet))
    ensures Bytes(s.0, s.1, s.2, s.3) == (a, b, c)
  {
    ((a / 4) as sextet, Join(a % 4, 16, b / 16), Join(b % 16, 4, c / 64), (c % 64) as sextet)
  }

  function Join(high: byte, shift: byte, low: byte): (r: sextet)
    requires (shift == 16 && high < 4 && low < 16) || (shift == 4 && high < 16 && low < 4)
    ensures r as int == high as int * shift as int + low as int
  {
    if shift == 16 then (high as int * 16 + low as int) as sextet else (high as int * 4 + low as int) as sextet
  }

  function Bytes(d0: sextet, d1: sextet, d2: sextet, d3: sextet): (byte, byte, byte) {
    ((d0 as int * 4 + d1 as int / 16) as byte,
     (d1 as int % 16 * 16 + d2 as int / 4) as byte,
     (d2 as int % 4 * 64 + d3 as int) as byte)
  }

  function Encode(bytes: seq<byte>): (r: string)
    ensures '.' !in r
    ensures r == "" <==> bytes == []
  {
    if bytes == [] then ""
    else if |bytes| == 1 then
      var d := Sextets(bytes[0], 0, 0);
      [Digit(d.0), Digit(d.1)]
    else if |bytes| == 2 then
      var d := Sextets(bytes[0], bytes[1], 0);
      [Digit(d.0), Digit(d.1), Digit(d.2)]
    else
      var d := Sextets(bytes[0], bytes[1], bytes[2]);
      [Digit(d.0), Digit(d.1), Digit(d.2), Digit(d.3)] + Encode(bytes[3..])
  }

  /** The reading of a text that Encode wrote. */
  function Decode(s: string): seq<byte> {
    if |s| < 2 then []
    else if |s| == 2 then [Bytes(Value(s[0]), Value(s[1]), 0, 0).0]
    else if |s| == 3 then
      var b := Bytes(Value(s[0]), Value(s[1]), Value(s[2]), 0);
      [b.0, b.1]
    else
      var b := Bytes(Value(s[0]), Value(s[1]), Value(s[2]), Value(s[3]));
      [b.0, b.1, b.2] + Decode(s[4..])
  }

  /** No two byte strings have the same text. */
  lemma {:induction false} DecodeEncode(bytes: seq<byte>)
    ensures Decode(Encode(bytes)) == bytes
    decreases |bytes|
  {
    if |bytes| > 2 {
      var s := Encode(bytes);
      var d := Sextets(bytes[0], bytes[1], bytes[2]);
      assert s[..4] == [Digit(d.0), Digit(d.1), Digit(d.2), Digit(d.3)] && s[4..] == Encode(bytes[3..]);
      DecodeEncode(bytes[3..]);
    } else if |bytes| == 2 {
      var d := Sextets(bytes[0], bytes[1], 0);
      assert d.3 == 0;
    } else if |bytes| == 1 {
      var d := Sextets(bytes[0], 0, 0);
      assert d.2 == 0 && d.3 == 0;
    }
  }

  lemma ThreeBytes(bytes: seq<byte>, d: (sextet, sextet, sextet, sextet))
    requires |bytes| > 2 && d == Sextets(bytes[0], bytes[1], bytes[2])
    ensures Encode(bytes) == [Digit(d.0), Digit(d.1), Digit(d.2), Digit(d.3)] + Encode(bytes[3..])
  {
  }

  lemma Foo()
    ensures Sextets(0x66, 0x6f, 0x6f) == (25, 38, 61, 47)
  {
  }

  lemma Alphabet()
    ensures Digit(0) == 'A' && Digit(4) == 'E' && Digit(24) == 'Y' && Digit(25) == 'Z' && Digit(32) == 'g' && Digit(38) == 'm'
    ensures Digit(47) == 'v' && Digit(61) == '9' && Digit(62) == '-' && Digit(63) == '_'
  {
  }

  /** A test vector of section 10 of RFC 4648, without padding, and one for the two letters in which the
      alphabet of section 5 differs. */
  lemma VectorFooba()
    ensures Encode([0x66, 0x6f, 0x6f, 0x62, 0x61]) == "Zm9vYmE"
  {
    var bytes: seq<byte> := [0x66, 0x6f, 0x6f, 0x62, 0x61];
    Foo();
    Alphabet();
    ThreeBytes(bytes, (25, 38, 61, 47));
    assert bytes[3..] == [0x62, 0x61] && Sextets(0x62, 0x61, 0) == (24, 38, 4, 0);
    assert Encode(bytes[3..]) == "YmE";
  }

  lemma VectorUrlSafe()
    ensures Encode([0xfb, 0xff, 0xbf]) == "-_-_"
  {
    var bytes: seq<byte> := [0xfb, 0xff, 0xbf];
    Alphabet();
    assert Sextets(0xfb, 0xff, 0xbf) == (62, 63, 62, 63);
    ThreeBytes(bytes, (62, 63, 62, 63));
    assert bytes[3..] == [] && Encode(bytes[3..]) == "";
  }

  // ---------- tokens ----------

  /** HMAC-SHA256 of a key and a message; only its length matters here. */
  type Hmac = (seq<byte>, seq<byte>) -> seq<byte>

  ghost predicate IsHmac(hmac: Hmac) {
    forall key, message :: |hmac(key, message)| == 32
  }

  /** []byte(s) for a Go string, whose characters are bytes. */
  function BytesOf(s: string): seq<byte> {
    seq(|s|, i requires 0 <= i < |s| => (s[i] as int % 256) as byte)
  }

  /** On such texts nothing is lost. */
  lemma BytesOfInjective(a: string, b: string)
    requires (forall c <- a :: c as int < 256) && forall c <- b :: c as int < 256
    ensures BytesOf(a) == BytesOf(b) <==> a == b
  {
    if BytesOf(a) == BytesOf(b) {
      forall i | 0 <= i < |a|
        ensures a[i] == b[i]
      {
        assert BytesOf(a)[i] == BytesOf(b)[i] && a[i] in a && b[i] in b;
      }
    }
  }

  datatype Options = Options(hmac: Hmac, secret: seq<byte>, secure: bool)

  function Signature(opts: Options, raw: string): string {
    Encode(opts.hmac(opts.secret, BytesOf(raw)))
  }

  function SessionToken(opts: Options, fingerprint: seq<byte>): string {
    Encode(opts.hmac(opts.secret, fingerprint))
  }

  /** newAnonymousToken; None for a failing random source. */
  function NewAnonymousToken(opts: Options, random: Option<seq<byte>>): Option<string> {
    match random
    case None => None
    case Some(buffer) => Some(Signed(opts, Encode(buffer)))
  }

  /** strings.Cut(value, "."), then the comparison of signatures. */
  predicate VerifyAnonymousToken(opts: Options, value: string) {
    var i := FirstDot(value);
    i < |value| &&
    var raw, signature := value[..i], value[i + 1..];
    raw != "" && signature != "" && signature == Signature(opts, raw)
  }

  function Signed(opts: Options, raw: string): string {
    raw + "." + Signature(opts, raw)
  }

  lemma TokenParts(opts: Options, raw: string, signature: string)
    requires raw != "" && '.' !in raw
    ensures VerifyAnonymousToken(opts, raw + "." + signature) <==>
            signature != "" && signature == Encode(opts.hmac(opts.secret, BytesOf(raw)))
  {
    var value := raw + "." + signature;
    FirstDotOf(raw, signature);
    assert value[..|raw|] == raw && value[|raw| + 1..] == signature;
  }

  lemma VerifiedParts(opts: Options, value: string) returns (raw: string)
    requires VerifyAnonymousToken(opts, value)
    ensures raw != "" && '.' !in raw && value == raw + "." + Encode(opts.hmac(opts.secret, BytesOf(raw)))
  {
    raw := value[..FirstDot(value)];
    assert value == raw + "." + value[|raw| + 1..];
  }

  lemma PartsVerify(opts: Options, value: string, raw: string)
    requires IsHmac(opts.hmac) && raw != "" && '.' !in raw && value == raw + "." + Encode(opts.hmac(opts.secret, BytesOf(raw)))
    ensures VerifyAnonymousToken(opts, value)
  {
    TokenParts(opts, raw, Encode(opts.hmac(opts.secret, BytesOf(raw))));
    assert |opts.hmac(opts.secret, BytesOf(raw))| == 32;
  }

  /** A token verifies exactly if it is some non-empty dot-free text with the MAC of that text. */
  lemma VerifiesExactly(opts: Options, value: string)
    requires IsHmac(opts.hmac)
    ensures VerifyAnonymousToken(opts, value) <==>
            exists raw :: raw != "" && '.' !in raw && value == raw + "." + Encode(opts.hmac(opts.secret, BytesOf(raw)))
  {
    if VerifyAnonymousToken(opts, value) {
      var raw := VerifiedParts(opts, value);
    }
    if raw :| raw != "" && '.' !in raw && value == raw + "." + Encode(opts.hmac(opts.secret, BytesOf(raw))) {
      PartsVerify(opts, value, raw);
    }
  }

  /** A signature belongs to its text and its secret: beside another text, or checked with another secret, it
      verifies exactly if the MACs coincide. */
  lemma SignatureBinds(opts: Options, other: Options, r: string, r': string, signature: string)
    requires r != "" && '.' !in r && r' != "" && '.' !in r' && VerifyAnonymousToken(opts, r + "." + signature)
    ensures VerifyAnonymousToken(other, r' + "." + signature) <==>
            other.hmac(other.secret, BytesOf(r')) == opts.hmac(opts.secret, BytesOf(r))
  {
    TokenParts(opts, r, signature);
    TokenParts(other, r', signature);
    DecodeEncode(opts.hmac(opts.secret, BytesOf(r)));
    DecodeEncode(other.hmac(other.secret, BytesOf(r')));
  }

  /** Tokens minted from different random bytes differ. */
  lemma MintedTokensDiffer(opts: Options, other: Options, random: seq<byte>, random': seq<byte>)
    ensures NewAnonymousToken(opts, Some(random)) == NewAnonymousToken(other, Some(random')) ==> random == random'
  {
    var raw, raw' := Encode(random), Encode(random');
    FirstDotOf(raw, Signature(opts, raw));
    FirstDotOf(raw', Signature(other, raw'));
    DecodeEncode(random);
    DecodeEncode(random');
    assert Signed(opts, raw)[..|raw|] == raw && Signed(other, raw')[..|raw'|] == raw';
  }

  /** What is minted verifies under the same secret. */
  lemma MintedVerifies(opts: Options, random: seq<byte>)
    requires IsHmac(opts.hmac) && |random| == RANDOM_LEN
    ensures VerifyAnonymousToken(opts, NewAnonymousToken(opts, Some(random)).value)
  {
    PartsVerify(opts, Signed(opts, Encode(random)), Encode(random));
  }

  /** A session-bound token never passes as an anonymous one, under any secret. */
  lemma SessionTokenIsNotAnonymous(opts: Options, other: Options, fingerprint: seq<byte>)
    ensures !VerifyAnonymousToken(other, SessionToken(opts, fingerprint))
  {
  }

  // ---------- a request ----------

  datatype Request = Request(
    open: bool,                       // OpenRoutes allows it
    method_: string,
    session: Option<seq<byte>>,       // GetSessionFinger
    cookies: map<string, string>,
    header: string,                   // X-CSRF-Token
    contentType: string,              // media type without parameters
    form: Option<string>,             // "_csrf" of a url-encoded body; None if ParseForm fails
    fetchSite: string,
    fetchMode: string,
    fetchDest: string,
    random: Option<seq<byte>>)

  function CookieName(secure: bool): string {
    if secure then COOKIE_HOST else COOKIE_BASE
  }

  predicate ShouldMint(r: Request) {
    (r.fetchSite == "cross-site" || r.fetchSite == "same-site") ==>
      r.fetchMode == "navigate" && r.fetchDest == "document"
  }

  /** resolveExpectedToken; None for its error. */
  function ResolveExpectedToken(opts: Options, r: Request): Option<string> {
    match r.session
    case Some(fingerprint) => Some(SessionToken(opts, fingerprint))
    case None =>
      var name := CookieName(opts.secure);
      if name in r.cookies && r.cookies[name] != "" && VerifyAnonymousToken(opts, r.cookies[name])
      then Some(r.cookies[name])
      else if !ShouldMint(r) then Some("")
      else NewAnonymousToken(opts, r.random)
  }

  predicate IsSafeMethod(m: string) {
    m == "GET" || m == "HEAD" || m == "OPTIONS"
  }

  /** PostForm["_csrf"] after ParseForm, which reads url-encoded bodies of these methods only and leaves
      PostForm empty otherwise. */
  function PostForm(r: Request): Option<string> {
    if r.form.None? then None
    else if r.method_ in {"POST", "PUT", "PATCH"} && r.contentType == URL_ENCODED then r.form
    else Some("")
  }

  /** tokenValid: a header, if there is one, decides alone. */
  predicate TokenValid(r: Request, expected: string) {
    if r.header != "" then r.header == expected
    else (r.contentType == URL_ENCODED || r.contentType == MULTIPART) && PostForm(r) == Some(expected)
  }

  datatype Outcome =
    | Untouched                     // open route: next is called without a token
    | Forwarded(token: string)      // next is called with the token in its context
    | Forbidden
    | InitFailed

  datatype Response = Response(outcome: Outcome, setCookie: Option<string>)

  /** The middleware on one request. */
  function Handle(opts: Options, r: Request): Response {
    if r.open then Response(Untouched, None) else
    match ResolveExpectedToken(opts, r)
    case None => Response(InitFailed, None)
    case Some(expected) =>
      var name := CookieName(opts.secure);
      var cookie := if expected == "" || (name in r.cookies && r.cookies[name] == expected) then None else Some(expected);
      if !IsSafeMethod(r.method_) && (expected == "" || !TokenValid(r, expected)) then Response(Forbidden, cookie)
      else Response(Forwarded(expected), cookie)
  }

  /** The response under construction. */
  class ResponseWriter {
    var cookies: seq<(string, string)>
    var outcome: Option<Outcome>

    constructor ()
      ensures cookies == [] && outcome == None
    {
      cookies, outcome := [], None;
    }

    method EnsureCSRFCookie(r: Request, token: string, secure: bool)
      modifies this`cookies
      ensures var name := CookieName(secure);
              cookies == old(cookies) + if name in r.cookies && r.cookies[name] == token then [] else [(name, token)]
    {
      var name := CookieName(secure);
      if name in r.cookies && r.cookies[name] == token {
        return;
      }
      cookies := cookies + [(name, token)];
    }

    method ServeHTTP(opts: Options, r: Request)
      requires cookies == [] && outcome == None
      modifies this
      ensures var response := Handle(opts, r);
              && outcome == Some(response.outcome)
              && cookies == match response.setCookie
                            case None => []
                            case Some(token) => [(CookieName(opts.secure), token)]
    {
      if r.open {
        outcome := Some(Untouched);
        return;
      }
      var expected := ResolveExpectedToken(opts, r);
      if expected.None? {
        outcome := Some(InitFailed);
        return;
      }
      if expected.value != "" {
        EnsureCSRFCookie(r, expected.value, opts.secure);
      }
      if !IsSafeMethod(r.method_) {
        if expected.value == "" || !TokenValid(r, expected.value) {
          outcome := Some(Forbidden);
          return;
        }
      }
      outcome := Some(Forwarded(expected.value));
    }
  }

  // ---------- a browser that keeps its cookie ----------

  type Jar = map<string, string>

  function WithCookies(r: Request, jar: Jar): Request {
    r.(cookies := jar)
  }

  function JarAfter(opts: Options, r: Request, jar: Jar): Jar {
    match Handle(opts, WithCookies(r, jar)).setCookie
    case None => jar
    case Some(token) => jar[CookieName(opts.secure) := token]
  }

  function JarAfterAll(opts: Options, rs: seq<Request>, jar: Jar): Jar {
    if rs == [] then jar else JarAfterAll(opts, rs[1..], JarAfter(opts, rs[0], jar))
  }

  /** The token expected of, and placed in the page of, a request; "" if there is none. */
  function Expected(opts: Options, r: Request, jar: Jar): string {
    if r.open then "" else
    match ResolveExpectedToken(opts, WithCookies(r, jar))
    case None => ""
    case Some(token) => token
  }

  /** Where a token comes from that a request without session expects. */
  lemma ExpectedAnonymousVerifies(opts: Options, r: Request, jar: Jar)
    requires IsHmac(opts.hmac) && (r.random.Some? ==> |r.random.value| == RANDOM_LEN)
    requires r.session.None? && Expected(opts, r, jar) != ""
    ensures VerifyAnonymousToken(opts, Expected(opts, r, jar))
    ensures var name := CookieName(opts.secure);
            name in JarAfter(opts, r, jar) && JarAfter(opts, r, jar)[name] == Expected(opts, r, jar)
  {
    if r.random.Some? {
      MintedVerifies(opts, r.random.value);
    }
  }

  /** A token the browser holds stays there through any requests of the same kind. */
  lemma {:induction false} TokenStays(opts: Options, rs: seq<Request>, jar: Jar, token: string)
    requires forall r <- rs :: r.session.None?
    requires token != "" && VerifyAnonymousToken(opts, token)
    requires CookieName(opts.secure) in jar && jar[CookieName(opts.secure)] == token
    ensures JarAfterAll(opts, rs, jar) == jar
  {
    if rs != [] {
      assert rs[0] in rs && JarAfter(opts, rs[0], jar) == jar;
      assert forall r <- rs[1..] :: r in rs;
      TokenStays(opts, rs[1..], jar, token);
    }
  }

  /** Whatever requests without session lie between, on open routes or not, safe or not, allowed
      or refused: the token placed in one page is the one expected of every later request. */
  lemma AnonymousTokenIsStable(opts: Options, first: Request, between: seq<Request>, later: Request, jar: Jar)
    requires IsHmac(opts.hmac) && (first.random.Some? ==> |first.random.value| == RANDOM_LEN)
    requires first.session.None? && later.session.None? && forall r <- between :: r.session.None?
    requires Expected(opts, first, jar) != "" && !later.open
    ensures var jar' := JarAfterAll(opts, between, JarAfter(opts, first, jar));
            Expected(opts, later, jar') == Expected(opts, first, jar)
  {
    ExpectedAnonymousVerifies(opts, first, jar);
    TokenStays(opts, between, JarAfter(opts, first, jar), Expected(opts, first, jar));
  }

  /** With a session the token depends on its fingerprint alone, so two sessions expect the same one
      only if their fingerprints share a MAC. */
  lemma SessionTokens(opts: Options, r: Request, r': Request, jar: Jar, jar': Jar)
    requires r.session.Some? && r'.session.Some? && !r.open && !r'.open
    ensures Expected(opts, r, jar) == Expected(opts, r', jar') <==>
            opts.hmac(opts.secret, r.session.value) == opts.hmac(opts.secret, r'.session.value)
  {
    DecodeEncode(opts.hmac(opts.secret, r.session.value));
    DecodeEncode(opts.hmac(opts.secret, r'.session.value));
  }

  /** After a logout the session's cookie is worthless: the next token is a different one. */
  lemma LogoutChangesToken(opts: Options, before: Request, after: Request, jar: Jar)
    requires IsHmac(opts.hmac) && (after.random.Some? ==> |after.random.value| == RANDOM_LEN)
    requires before.session.Some? && after.session.None? && !before.open && !after.open
    ensures Expected(opts, after, JarAfter(opts, before, jar)) != Expected(opts, before, jar)
  {
    SessionTokenIsNotAnonymous(opts, opts, before.session.value);
    assert |opts.hmac(opts.secret, before.session.value)| == 32;
    if Expected(opts, after, JarAfter(opts, before, jar)) != "" {
      ExpectedAnonymousVerifies(opts, after, JarAfter(opts, before, jar));
    }
  }

  /** A request passes exactly if its method is safe or it carries the expected token, in the header
      or, without one, in a form. */
  lemma PassesExactly(opts: Options, r: Request, jar: Jar)
    requires Expected(opts, r, jar) != ""
    ensures Handle(opts, WithCookies(r, jar)).outcome == Forwarded(Expected(opts, r, jar)) <==>
            r.method_ in {"GET", "HEAD", "OPTIONS"} || TokenValid(r, Expected(opts, r, jar))
  {
  }

  /** A header, if there is one, decides alone: with a wrong one a request is refused even if its form is right. */
  lemma HeaderDecides(opts: Options, r: Request, jar: Jar)
    requires !r.open && r.method_ !in {"GET", "HEAD", "OPTIONS"} && r.header != ""
    ensures Handle(opts, WithCookies(r, jar)).outcome.Forwarded? <==> r.header == Expected(opts, r, jar)
  {
    if Expected(opts, r, jar) != "" {
      PassesExactly(opts, r, jar);
    }
  }

  /** The cookie is set exactly when a token is expected that the browser does not hold yet, whether or not the
      request is let through; open routes set none. */
  lemma CookieExactly(opts: Options, r: Request, jar: Jar)
    ensures var name := if opts.secure then "__Host-racp_csrf" else "racp_csrf";
            var token := Expected(opts, r, jar);
            Handle(opts, WithCookies(r, jar)).setCookie ==
            if token == "" || (name in jar && jar[name] == token) then None else Some(token)
    ensures r.open ==> Handle(opts, WithCookies(r, jar)) == Response(Untouched, None)
  {
  }

  /** A request that would change something and does not carry the token expected of it is refused, as is
      every such request of which no token is expected. */
  lemma UnsafeIsRefused(opts: Options, r: Request, jar: Jar)
    requires !r.open && r.method_ in {"POST", "PUT", "PATCH", "DELETE"}
    requires var token := Expected(opts, r, jar); token == "" || (r.header != token && r.form != Some(token))
    ensures var outcome := Handle(opts, WithCookies(r, jar)).outcome; outcome == Forbidden || outcome == InitFailed
  {
  }

  /** A request without session that brings no valid token is given a new one, as a cookie, unless a page of
      another site makes it in the background; then it gets none, and nothing that is not safe passes. */
  lemma MintsExactly(opts: Options, r: Request, jar: Jar)
    requires IsHmac(opts.hmac) && (r.random.Some? ==> |r.random.value| == RANDOM_LEN) && !r.open && r.session.None?
    requires var name := if opts.secure then "__Host-racp_csrf" else "racp_csrf";
             name in jar ==> !VerifyAnonymousToken(opts, jar[name])
    ensures var background := (r.fetchSite == "cross-site" || r.fetchSite == "same-site")
                              && !(r.fetchMode == "navigate" && r.fetchDest == "document");
            var response := Handle(opts, WithCookies(r, jar));
            if background then
              response.setCookie == None
              && response.outcome == if r.method_ in {"GET", "HEAD", "OPTIONS"} then Forwarded("") else Forbidden
            else if r.random.None? then response == Response(InitFailed, None)
            else
              && response.setCookie == NewAnonymousToken(opts, r.random)
              && VerifyAnonymousToken(opts, response.setCookie.value)
              && (r.method_ in {"GET", "HEAD", "OPTIONS"} ==> response.outcome == Forwarded(response.setCookie.value))
  {
    if r.random.Some? {
      MintedVerifies(opts, r.random.value);
    }
  }

  /** Without a header a request gets past the check only with a safe method or with the token in a
      url-encoded body of a POST, PUT or PATCH; in particular no multipart form does, although tokenValid
      admits its media type. */
  lemma HeaderlessPassesExactly(opts: Options, r: Request, jar: Jar)
    requires !r.open && r.header == ""
    ensures var expected := Expected(opts, r, jar);
            r.method_ !in {"GET", "HEAD", "OPTIONS"} ==>
              (Handle(opts, WithCookies(r, jar)).outcome.Forwarded? <==>
               expected != "" && r.form == Some(expected)
               && r.contentType == URL_ENCODED && r.method_ in {"POST", "PUT", "PATCH"})
  {
    if Expected(opts, r, jar) != "" {
      PassesExactly(opts, r, jar);
    }
  }

  /** The page and the later request belong to the same session, or to none with no session between. */
  ghost predicate SameState(opts: Options, page: Request, between: seq<Request>, post: Request) {
    && post.session == page.session
    && (page.session.None? ==>
          && IsHmac(opts.hmac) && (page.random.Some? ==> |page.random.value| == RANDOM_LEN)
          && forall r <- between :: r.session.None?)
  }

  /** The round trip the protection is built for, with a session or without: a request is let through
      with the page's token exactly if its method is safe or it posts that token back, whatever
      requests lie between. */
  lemma PageTokenIsAccepted(opts: Options, page: Request, between: seq<Request>, post: Request, jar: Jar)
    requires SameState(opts, page, between, post) && Expected(opts, page, jar) != "" && !post.open
    ensures var token := Expected(opts, page, jar);
            var jar' := JarAfterAll(opts, between, JarAfter(opts, page, jar));
            && Expected(opts, post, jar') == token
            && (Handle(opts, WithCookies(post, jar')).outcome == Forwarded(token) <==>
                post.method_ in {"GET", "HEAD", "OPTIONS"} || TokenValid(post, token))
  {
    var jar' := JarAfterAll(opts, between, JarAfter(opts, page, jar));
    if page.session.None? {
      AnonymousTokenIsStable(opts, page, between, post, jar);
    }
    PassesExactly(opts, post, jar');
  }

  /** The token of another session's page is accepted only from a session with the same MAC. */
  lemma OtherSessionIsRefused(opts: Options, page: Request, post: Request, jar: Jar, jar': Jar)
    requires IsHmac(opts.hmac) && page.session.Some? && post.session.Some? && !page.open && !post.open
    requires post.method_ !in {"GET", "HEAD", "OPTIONS"} && TokenValid(post, Expected(opts, page, jar))
    ensures Handle(opts, WithCookies(post, jar')).outcome.Forwarded? <==>
            opts.hmac(opts.secret, page.session.value) == opts.hmac(opts.secret, post.session.value)
  {
    assert |opts.hmac(opts.secret, post.session.value)| == 32;
    SessionTokens(opts, page, post, jar, jar');
    PassesExactly(opts, post, jar');
  }
}
