// Signed cookies and OAuth state tokens: base64url(JSON) + "." + HMAC, with the HMAC bound to the
// purpose it was made for.
module Tokens {
  import opened Collections
  import opened Access
  import Base64Url

  const SESSION_DOMAIN := "hopwatch.session.v1"
  const OAUTH_DOMAIN := "hopwatch.oauth-state.v1"
  const MIN_AGE_S := 300

  datatype Json = JNull | JBool(b: bool) | JNum(n: real) | JStr(s: string) | JArr(elements: seq<Json>)
      | JObj(fields: map<string, Json>)

  /**
   * What the platform supplies: JSON to bytes and back, the HMAC under the server's secret as
   * hexadecimal text, and the conversion of a JSON value to a number (None is NaN).
   */
  datatype Platform = Platform(render: Json -> seq<Base64Url.Byte>, parse: seq<Base64Url.Byte> -> Option<Json>,
                               mac: string -> string, toNumber: Json -> Option<real>)

  /** The payload survives being written as JSON text and read again. */
  predicate RoundTrips(p: Platform, j: Json) {
    p.parse(p.render(j)) == Some(j)
  }

  predicate IsHex(s: string) {
    forall i | 0 <= i < |s| :: '0' <= s[i] <= '9' || 'a' <= s[i] <= 'f'
  }

  ghost predicate MacIsHex(p: Platform) {
    forall s :: IsHex(p.mac(s))
  }

  function Hmac(p: Platform, domain: string, data: string): string { p.mac(domain + "\0" + data) }

  function Seconds(ms: int): int { ms / 1000 }

  // The shape both tokens share.

  function Sign(p: Platform, domain: string, j: Json): string {
    var body := Base64Url.Encode(p.render(j));
    body + "." + Hmac(p, domain, body)
  }

  function LastDot(s: string): (r: Option<nat>)
    ensures r.Some? ==> r.value < |s| && s[r.value] == '.'
  {
    if s == "" then None
    else if s[|s| - 1] == '.' then Some(|s| - 1)
    else LastDot(s[..|s| - 1])
  }

  datatype Opened = Payload(j: Json) | Rejected | Throws

  predicate Ascii(s: string) {
    forall i | 0 <= i < |s| :: s[i] <= '\U{7F}'
  }

  /**
   * Check the signature and parse the body. Comparing a signature of the right length but with
   * characters of more than one byte throws, as the two byte strings then differ in length.
   */
  function Open(p: Platform, domain: string, text: string): Opened {
    match LastDot(text)
    case None => Rejected
    case Some(dot) =>
      var body, sig := text[..dot], text[dot + 1..];
      var expected := Hmac(p, domain, body);
      if |sig| != |expected| then Rejected
      else if !Ascii(sig) then Throws
      else if sig != expected then Rejected
      else match p.parse(Base64Url.Decode(body))
        case None => Rejected
        case Some(j) => Payload(j)
  }

  // Sessions.

  function SessionJson(s: Session): Json {
    JObj(map["sub" := JStr(s.sub), "role" := JStr(s.role), "exp" := JNum(s.exp as real)])
  }

  function MaxAge(ttlSec: real): int {
    if ttlSec.Floor > MIN_AGE_S then ttlSec.Floor else MIN_AGE_S
  }

  function SignSession(p: Platform, sub: string, role: string, ttlSec: real, nowMs: int): (string, int) {
    var maxAge := MaxAge(ttlSec);
    (Sign(p, SESSION_DOMAIN, SessionJson(Session(sub, role, Seconds(nowMs) + maxAge))), maxAge)
  }

  function Field(j: Json, key: string): Option<Json> {
    if j.JObj? && key in j.fields then Some(j.fields[key]) else None
  }

  predicate NonEmptyText(j: Option<Json>) {
    j.Some? && j.value.JStr? && j.value.s != ""
  }

  /** The shape check: a user, a role, and an expiry not yet past. */
  predicate IsLiveSession(j: Json, nowMs: int) {
    && NonEmptyText(Field(j, "sub"))
    && NonEmptyText(Field(j, "role"))
    && Field(j, "exp").Some? && Field(j, "exp").value.JNum?
    && !(Field(j, "exp").value.n < Seconds(nowMs) as real)
  }

  function VerifySession(p: Platform, cookie: string, nowMs: int): Opened {
    match Open(p, SESSION_DOMAIN, cookie)
    case Payload(j) => if IsLiveSession(j, nowMs) then Payload(j) else Rejected
    case other => other
  }

  // OAuth state.

  function SignState(p: Platform, state: Json): string { Sign(p, OAUTH_DOMAIN, state) }

  /** Only the expiry is looked at, by JavaScript's loose comparison; reading it off null throws and is caught. */
  predicate IsLiveState(p: Platform, j: Json, nowMs: int) {
    j != JNull &&
    match Field(j, "exp")
    case None => true
    case Some(JNum(n)) => !(n < Seconds(nowMs) as real)
    case Some(v) => p.toNumber(v).None? || !(p.toNumber(v).value < Seconds(nowMs) as real)
  }

  function VerifyState(p: Platform, text: string, nowMs: int): Opened {
    match Open(p, OAUTH_DOMAIN, text)
    case Payload(j) => if IsLiveState(p, j, nowMs) then Payload(j) else Rejected
    case other => other
  }

  // The split at the last dot is exact.

  lemma {:induction false} LastDotOf(a: string, b: string)
    requires '.' !in b
    ensures LastDot(a + "." + b) == Some(|a|)
  {
    var s := a + "." + b;
    if b != "" {
      assert s[..|s| - 1] == a + "." + b[..|b| - 1];
      assert b[|b| - 1] in b;
      LastDotOf(a, b[..|b| - 1]);
    }
  }

  lemma HexIsPlain(s: string)
    requires IsHex(s)
    ensures Ascii(s) && '.' !in s
  {
  }

  /** A token opens, under its own domain, to exactly what was signed. */
  lemma OpenUndoesSign(p: Platform, domain: string, j: Json)
    requires RoundTrips(p, j) && MacIsHex(p)
    ensures Open(p, domain, Sign(p, domain, j)) == Payload(j)
    ensures var body := Base64Url.Encode(p.render(j)); Sign(p, domain, j) == body + "." + p.mac(domain + "\0" + body)
  {
    hide Base64Url.Encode, Base64Url.Decode, LastDot, Ascii, IsHex;
    var body := Base64Url.Encode(p.render(j));
    var sig := Hmac(p, domain, body);
    Base64Url.RoundTrip(p.render(j));
    HexIsPlain(sig);
    LastDotOf(body, sig);
    var text := body + "." + sig;
    assert text[..|body|] == body && text[|body| + 1..] == sig;
  }

  /** Whatever opens was signed under that domain by a holder of the secret, body and all. */
  lemma OpenedWasSigned(p: Platform, domain: string, text: string)
    requires Open(p, domain, text).Payload?
    ensures exists body :: text == body + "." + Hmac(p, domain, body)
  {
    var dot := LastDot(text).value;
    assert text == text[..dot] + "." + text[dot + 1..];
  }

  /** A session comes back while it has a user and a role, through its expiry second and not after. */
  lemma SessionRoundTrip(p: Platform, sub: string, role: string, ttlSec: real, nowMs: int, laterMs: int)
    requires MacIsHex(p) && RoundTrips(p, SessionJson(Session(sub, role, Seconds(nowMs) + MaxAge(ttlSec))))
    ensures var (cookie, maxAge) := SignSession(p, sub, role, ttlSec, nowMs);
      var exp := nowMs / 1000 + maxAge;
      && maxAge >= 300 && (ttlSec >= 300.0 ==> maxAge as real <= ttlSec < maxAge as real + 1.0)
      && (ttlSec < 300.0 ==> maxAge == 300)
      && VerifySession(p, cookie, laterMs) ==
         if sub != "" && role != "" && laterMs / 1000 <= exp then
           Payload(JObj(map["sub" := JStr(sub), "role" := JStr(role), "exp" := JNum(exp as real)]))
         else Rejected
  {
    hide Sign, Open;
    var (cookie, maxAge) := SignSession(p, sub, role, ttlSec, nowMs);
    OpenUndoesSign(p, SESSION_DOMAIN, SessionJson(Session(sub, role, Seconds(nowMs) + maxAge)));
  }

  /** A state token comes back through its expiry second and not after. */
  lemma StateRoundTrip(p: Platform, fields: map<string, Json>, exp: int, nowMs: int)
    requires RoundTrips(p, JObj(fields)) && MacIsHex(p) && "exp" in fields && fields["exp"] == JNum(exp as real)
    ensures VerifyState(p, SignState(p, JObj(fields)), nowMs) ==
            if nowMs / 1000 <= exp then Payload(JObj(fields)) else Rejected
  {
    hide Sign, Open;
    OpenUndoesSign(p, OAUTH_DOMAIN, JObj(fields));
  }

  /** Of what is signed as a session, exactly an object with a user, a role and an expiry not past is accepted. */
  lemma SessionAccepted(p: Platform, j: Json, nowMs: int)
    requires MacIsHex(p) && RoundTrips(p, j)
    ensures VerifySession(p, Sign(p, "hopwatch.session.v1", j), nowMs) ==
            if j.JObj? && "sub" in j.fields && "role" in j.fields && "exp" in j.fields &&
               j.fields["sub"].JStr? && j.fields["sub"] != JStr("") &&
               j.fields["role"].JStr? && j.fields["role"] != JStr("") &&
               j.fields["exp"].JNum? && j.fields["exp"].n >= (nowMs / 1000) as real
            then Payload(j) else Rejected
  {
    hide Sign, Open;
    OpenUndoesSign(p, SESSION_DOMAIN, j);
  }

  /** Of what is signed as a state, everything but null and what has an expiry that compares as past is accepted. */
  lemma StateAccepted(p: Platform, j: Json, nowMs: int)
    requires MacIsHex(p) && RoundTrips(p, j)
    ensures var hasExp := j.JObj? && "exp" in j.fields;
      var exp := if !hasExp then None
        else if j.fields["exp"].JNum? then Some(j.fields["exp"].n)
        else p.toNumber(j.fields["exp"]);
      VerifyState(p, Sign(p, "hopwatch.oauth-state.v1", j), nowMs) ==
      if j == JNull || (exp.Some? && exp.value < (nowMs / 1000) as real) then Rejected else Payload(j)
  {
    hide Sign, Open;
    OpenUndoesSign(p, OAUTH_DOMAIN, j);
  }

  /** The text that is signed in a token. */
  function BodyOf(p: Platform, j: Json): string { Base64Url.Encode(p.render(j)) }

  /**
   * A token made for one purpose opens for another exactly when the two signatures of its body
   * coincide; the domains make the signed texts differ, so that takes a collision of the hash.
   */
  lemma CrossesIffCollision(p: Platform, mine: string, other: string, j: Json)
    requires MacIsHex(p) && RoundTrips(p, j) && |Hmac(p, mine, BodyOf(p, j))| == |Hmac(p, other, BodyOf(p, j))|
    ensures Open(p, other, Sign(p, mine, j)) ==
            if Hmac(p, mine, BodyOf(p, j)) == Hmac(p, other, BodyOf(p, j)) then Payload(j) else Rejected
  {
    hide Base64Url.Encode, Base64Url.Decode, LastDot, Ascii, IsHex;
    var body := BodyOf(p, j);
    var sig := Hmac(p, mine, body);
    Base64Url.RoundTrip(p.render(j));
    HexIsPlain(sig);
    LastDotOf(body, sig);
    var text := body + "." + sig;
    assert text[..|body|] == body && text[|body| + 1..] == sig;
  }

  /** What is signed gives away the domain and the body: no text is signed for two purposes or for two bodies. */
  lemma SignedTextTells(mine: string, a: string, other: string, b: string)
    requires '\0' !in mine && '\0' !in other
    ensures mine + "\0" + a == other + "\0" + b <==> mine == other && a == b
  {
    var s, t := mine + "\0" + a, other + "\0" + b;
    assert |mine| < |other| ==> t[|mine|] == other[|mine|] != s[|mine|];
    assert |other| < |mine| ==> s[|other|] == mine[|other|] != t[|other|];
    if s == t {
      assert s[..|mine|] == mine && t[..|other|] == other;
      assert s[|mine| + 1..] == a && t[|other| + 1..] == b;
    }
  }

  lemma DomainsDiffer(a: string, b: string)
    ensures SESSION_DOMAIN + "\0" + a != OAUTH_DOMAIN + "\0" + b
  {
    assert (SESSION_DOMAIN + "\0" + a)[9] == 's';
    assert (OAUTH_DOMAIN + "\0" + b)[9] == 'o';
  }

  /** The hash tells the two texts apart that the body is signed as, one under each domain. */
  predicate NoCollision(p: Platform, body: string) {
    p.mac(SESSION_DOMAIN + "\0" + body) != p.mac(OAUTH_DOMAIN + "\0" + body)
  }

  /** A token made for one purpose opens for no other. */
  lemma NoCrossing(p: Platform, mine: string, other: string, j: Json)
    requires MacIsHex(p) && NoCollision(p, BodyOf(p, j))
    requires (mine == SESSION_DOMAIN && other == OAUTH_DOMAIN) || (mine == OAUTH_DOMAIN && other == SESSION_DOMAIN)
    ensures Open(p, other, Sign(p, mine, j)) == Rejected
  {
    hide Base64Url.Encode, Base64Url.Decode, LastDot, Ascii, IsHex;
    var body := BodyOf(p, j);
    var sig := Hmac(p, mine, body);
    Base64Url.RoundTrip(p.render(j));
    HexIsPlain(sig);
    LastDotOf(body, sig);
    var text := body + "." + sig;
    assert text[..|body|] == body && text[|body| + 1..] == sig;
  }

  /**
   * No state token passes as a session, and no session as a state token, at any time, as long as the
   * hash tells apart the two texts, never the same, that its body is signed as under the two domains.
   */
  lemma {:induction false} TokensDoNotCross(p: Platform, state: Json, s: Session, nowMs: int)
    requires MacIsHex(p)
    ensures NoCollision(p, BodyOf(p, state)) ==> VerifySession(p, SignState(p, state), nowMs) == Rejected
    ensures NoCollision(p, BodyOf(p, SessionJson(s))) ==>
              VerifyState(p, Sign(p, SESSION_DOMAIN, SessionJson(s)), nowMs) == Rejected
    ensures forall body :: SESSION_DOMAIN + "\0" + body != OAUTH_DOMAIN + "\0" + body
  {
    hide Sign, Open;
    if NoCollision(p, BodyOf(p, state)) { NoCrossing(p, OAUTH_DOMAIN, SESSION_DOMAIN, state); }
    if NoCollision(p, BodyOf(p, SessionJson(s))) { NoCrossing(p, SESSION_DOMAIN, OAUTH_DOMAIN, SessionJson(s)); }
    forall body
      ensures SESSION_DOMAIN + "\0" + body != OAUTH_DOMAIN + "\0" + body
    {
      DomainsDiffer(body, body);
    }
  }

  /** A text is more bytes than characters when some character is past the first 128. */
  lemma AsciiIs(s: string)
    ensures Ascii(s) <==> forall i | 0 <= i < |s| :: s[i] as int < 128
  {
  }

  /** Hexadecimal text is made of the sixteen digits. */
  lemma HexIs(s: string)
    ensures IsHex(s) <==> forall i | 0 <= i < |s| :: s[i] in "0123456789" || s[i] in "abcdef"
  {
    forall i | 0 <= i < |s|
      ensures '0' <= s[i] <= '9' <==> s[i] in "0123456789"
      ensures 'a' <= s[i] <= 'f' <==> s[i] in "abcdef"
    {
    }
  }

  /** Verification throws on exactly the signatures of the right length that are not plain ASCII. */
  lemma WhenVerifyThrows(p: Platform, cookie: string, nowMs: int)
    ensures VerifySession(p, cookie, nowMs).Throws? <==>
            exists body, sig :: cookie == body + "." + sig && '.' !in sig
                                && |sig| == |Hmac(p, SESSION_DOMAIN, body)| && !Ascii(sig)
  {
    hide Ascii, LastDot, Hmac;
    if dot: nat :| LastDot(cookie) == Some(dot) {
      assert cookie == cookie[..dot] + "." + cookie[dot + 1..];
      NoDotAfter(cookie);
    }
    if body, sig :| cookie == body + "." + sig && '.' !in sig
                    && |sig| == |Hmac(p, SESSION_DOMAIN, body)| && !Ascii(sig) {
      LastDotOf(body, sig);
      assert cookie[..|body|] == body && cookie[|body| + 1..] == sig;
    }
  }

  lemma {:induction false} NoDotAfter(s: string)
    requires LastDot(s).Some?
    ensures '.' !in s[LastDot(s).value + 1..]
  {
    if s[|s| - 1] != '.' {
      var rest, dot := s[..|s| - 1], LastDot(s).value;
      NoDotAfter(rest);
      assert s[dot + 1..] == rest[dot + 1..] + [s[|s| - 1]];
    }
  }

  /** What the laws above ask of the platform can be met, for every payload. */
  lemma HypothesesCanBeMet(j: Json) returns (p: Platform)
    ensures RoundTrips(p, j) && MacIsHex(p) && forall body :: NoCollision(p, body)
  {
    p := Platform(_ => [], _ => Some(j), (s: string) => if |s| > 9 && s[9] == 'o' then "0" else "1", _ => None);
    forall body
      ensures NoCollision(p, body)
    {
      assert (SESSION_DOMAIN + "\0" + body)[9] == 's' && (OAUTH_DOMAIN + "\0" + body)[9] == 'o';
    }
  }
}
