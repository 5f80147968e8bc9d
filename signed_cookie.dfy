/**
 * HMAC-signed cookies. A signed cookie is `value + "." + base64url(HMAC-SHA256(secret,
 * value))`; verification splits at the LAST '.', recomputes the HMAC of the leading part and
 * compares it with the decoded signature in constant time.
 *
 * HMAC-SHA256 (RFC 2104) and base64url (section 5 of RFC 4648) are parameters: the model
 * relies only on what `Rfc4648Url` states, that an encoded signature contains no '.'
 * and decodes back to the bytes it encodes.
 */
module SignedCookie {
  import opened Wrappers
  import Text

  const SEPARATOR: char := '.'

  /** The secret used when COOKIE_SECRET is unset, so that a build without it succeeds. */
  const PLACEHOLDER: string := "BUILD_TIME_PLACEHOLDER"

  type Bytes = seq<bv8>

  /** The two environment variables the secret lookup reads. */
  datatype Env = Env(cookieSecret: Option<string>, databaseUrl: Option<string>)

  /** JavaScript truthiness of an optional string: present and non-empty. */
  predicate Truthy(v: Option<string>)
  {
    v.Some? && v.value != ""
  }

  datatype SecretError = CookieSecretNotSet

  /**
   * The signing secret: COOKIE_SECRET when it is set and non-empty, else the placeholder;
   * at run time (DATABASE_URL set) the placeholder is refused with an exception.
   */
  function GetCookieSecret(env: Env): (r: Result<string, SecretError>)
    ensures r.Failure? <==>
              Truthy(env.databaseUrl) &&
              (!Truthy(env.cookieSecret) || env.cookieSecret.value == PLACEHOLDER)
    ensures r.Success? && Truthy(env.cookieSecret) ==> r.value == env.cookieSecret.value
    ensures r.Success? && !Truthy(env.cookieSecret) ==>
              r.value == PLACEHOLDER && !Truthy(env.databaseUrl)
  {
    var secret := if Truthy(env.cookieSecret) then env.cookieSecret.value else PLACEHOLDER;
    if secret == PLACEHOLDER && Truthy(env.databaseUrl) then Failure(CookieSecretNotSet)
    else Success(secret)
  }

  /** The cryptographic primitives: HMAC-SHA256 keyed by its first argument, and the
      base64url codec, whose decoder fails on malformed text. */
  datatype Crypto = Crypto(
    hmac: (string, string) -> Bytes,
    toBase64Url: Bytes -> string,
    fromBase64Url: string -> Option<Bytes>)

  /** What section 5 of RFC 4648 guarantees of the codec: its alphabet has no '.', and
      decoding inverts encoding. */
  ghost predicate Rfc4648Url(c: Crypto)
  {
    forall b :: SEPARATOR !in c.toBase64Url(b) && c.fromBase64Url(c.toBase64Url(b)) == Some(b)
  }

  /** HMAC-SHA256 of `data` under the cookie secret; fails when the secret lookup throws. */
  function HmacSha256(env: Env, c: Crypto, data: string): (r: Result<Bytes, SecretError>)
    ensures r.Success? <==> GetCookieSecret(env).Success?
    ensures r.Success? ==> r.value == c.hmac(GetCookieSecret(env).value, data)
  {
    match GetCookieSecret(env)
    case Success(secret) => Success(c.hmac(secret, data))
    case Failure(e) => Failure(e)
  }

  /** What verification can end in: the value, null, or the exception that the
      constant-time comparison raises on inputs of different lengths. */
  datatype Verdict = Verified(value: string) | Rejected | Throws

  /** `sig` is a well-formed signature of `value` under the current secret. */
  predicate Authentic(env: Env, c: Crypto, value: string, sig: string)
  {
    HmacSha256(env, c, value).Success? &&
    c.fromBase64Url(sig) == Some(HmacSha256(env, c, value).value)
  }

  /** Reads and verifies the cookie `name`. */
  function GetSignedCookie(env: Env, c: Crypto, cookies: map<string, string>, name: string)
    : (r: Verdict)
    ensures name !in cookies || cookies[name] == "" ==> r == Rejected
    ensures name in cookies && SEPARATOR !in cookies[name] ==> r == Rejected
    ensures r.Verified? ==> name in cookies && r.value <= cookies[name]
    ensures !GetCookieSecret(env).Success? ==> r == Rejected
  {
    if name !in cookies || cookies[name] == "" then Rejected
    else
      var signed := cookies[name];
      var idx := Text.LastIndexOf(signed, SEPARATOR);
      if idx == -1 then Rejected
      else
        var value := signed[..idx];
        var sig := signed[idx + 1..];
        match (HmacSha256(env, c, value), c.fromBase64Url(sig))
        case (Success(expected), Some(got)) =>
          if |got| != |expected| then Throws
          else if got != expected then Rejected
          else Verified(value)
        case _ => Rejected
  }

  /** The signed token that `setSignedCookie` stores for `value`: the value, the separator,
      then a signature that verifies against the value. */
  function SignToken(env: Env, c: Crypto, value: string): (r: Result<string, SecretError>)
    ensures r.Success? <==> GetCookieSecret(env).Success?
    ensures r.Success? ==>
              |r.value| > |value| && r.value[..|value|] == value && r.value[|value|] == SEPARATOR
    ensures r.Success? && Rfc4648Url(c) ==>
              SEPARATOR !in r.value[|value| + 1..] &&
              Authentic(env, c, value, r.value[|value| + 1..])
  {
    match HmacSha256(env, c, value)
    case Success(mac) =>
      var token := value + [SEPARATOR] + c.toBase64Url(mac);
      assert token[|value| + 1..] == c.toBase64Url(mac);
      Success(token)
    case Failure(e) => Failure(e)
  }

  /** `setSignedCookie`: the cookie jar after storing the signed token under `name`; the
      secret lookup's exception propagates. */
  function SetSignedCookie(env: Env, c: Crypto, cookies: map<string, string>, name: string,
                           value: string): (r: Result<map<string, string>, SecretError>)
    ensures r.Success? <==> GetCookieSecret(env).Success?
    ensures r.Success? ==> r.value.Keys == cookies.Keys + {name}
    ensures r.Success? ==> forall k :: k in cookies && k != name ==> r.value[k] == cookies[k]
    ensures r.Success? ==> r.value[name] == SignToken(env, c, value).value
  {
    match SignToken(env, c, value)
    case Success(token) => Success(cookies[name := token])
    case Failure(e) => Failure(e)
  }

  /** A cookie verifies to `v` exactly when it is `v`, the separator and an authentic
      signature without a '.' (so `v` itself may contain '.'). */
  lemma VerifiedIff(env: Env, c: Crypto, cookies: map<string, string>, name: string, v: string)
    ensures GetSignedCookie(env, c, cookies, name) == Verified(v) <==>
              name in cookies &&
              exists sig :: SEPARATOR !in sig && cookies[name] == v + [SEPARATOR] + sig &&
                            Authentic(env, c, v, sig)
  {
    if GetSignedCookie(env, c, cookies, name) == Verified(v) {
      var sig := VerifiedSplits(env, c, cookies, name, v);
    }
    if name in cookies &&
       exists sig :: SEPARATOR !in sig && cookies[name] == v + [SEPARATOR] + sig &&
                     Authentic(env, c, v, sig) {
      var sig :| SEPARATOR !in sig && cookies[name] == v + [SEPARATOR] + sig &&
                 Authentic(env, c, v, sig);
      SplitVerifies(env, c, cookies, name, v, sig);
    }
  }

  /** A verified cookie is the value, the separator, and the signature after the last '.'. */
  lemma VerifiedSplits(env: Env, c: Crypto, cookies: map<string, string>, name: string, v: string)
    returns (sig: string)
    requires GetSignedCookie(env, c, cookies, name) == Verified(v)
    ensures name in cookies && SEPARATOR !in sig && cookies[name] == v + [SEPARATOR] + sig &&
            Authentic(env, c, v, sig)
  {
    var signed := cookies[name];
    var idx := Text.LastIndexOf(signed, SEPARATOR);
    sig := signed[idx + 1..];
    assert signed == signed[..idx] + [SEPARATOR] + sig;
  }

  /** The value, the separator and an authentic signature without '.' verify to the value. */
  lemma SplitVerifies(env: Env, c: Crypto, cookies: map<string, string>, name: string, v: string,
                      sig: string)
    requires name in cookies && SEPARATOR !in sig && cookies[name] == v + [SEPARATOR] + sig
    requires Authentic(env, c, v, sig)
    ensures GetSignedCookie(env, c, cookies, name) == Verified(v)
  {
    var signed := cookies[name];
    Text.LastIndexOfJoin(v, SEPARATOR, sig);
    assert signed[..|v|] == v && signed[|v| + 1..] == sig;
  }

  /** Verifying the token that signing stores for `v` yields `v`. */
  lemma SignThenVerify(env: Env, c: Crypto, cookies: map<string, string>, name: string,
                       v: string)
    requires Rfc4648Url(c)
    requires SetSignedCookie(env, c, cookies, name, v).Success?
    ensures GetSignedCookie(env, c, SetSignedCookie(env, c, cookies, name, v).value, name)
            == Verified(v)
  {
    var jar := SetSignedCookie(env, c, cookies, name, v).value;
    var token := jar[name];
    var sig := token[|v| + 1..];
    assert token == v + [SEPARATOR] + sig;
    VerifiedIff(env, c, jar, name, v);
  }

  /** A well-formed signature of the wrong length makes verification throw instead of
      returning null. */
  lemma WrongLengthThrows(env: Env, c: Crypto, cookies: map<string, string>, name: string,
                          v: string, sig: string)
    requires name in cookies && cookies[name] == v + [SEPARATOR] + sig && SEPARATOR !in sig
    requires HmacSha256(env, c, v).Success? && c.fromBase64Url(sig).Some?
    requires |c.fromBase64Url(sig).value| != |HmacSha256(env, c, v).value|
    ensures GetSignedCookie(env, c, cookies, name) == Throws
  {
    var signed := cookies[name];
    Text.LastIndexOfJoin(v, SEPARATOR, sig);
    assert signed[..|v|] == v && signed[|v| + 1..] == sig;
  }

  /** The verdict on a cookie of the form value '.' signature, where the signature has no
      '.': an undecodable signature, or a secret that cannot be read, gives null; a decoded
      MAC of the wrong length throws; one of the right length gives null when it differs
      from the expected MAC (a forged cookie) and the value when it matches. */
  lemma VerdictOfSplit(env: Env, c: Crypto, cookies: map<string, string>, name: string,
                       v: string, sig: string)
    requires name in cookies && cookies[name] == v + [SEPARATOR] + sig && SEPARATOR !in sig
    ensures var r := GetSignedCookie(env, c, cookies, name);
            && (c.fromBase64Url(sig).None? ==> r == Rejected)
            && (HmacSha256(env, c, v).Failure? ==> r == Rejected)
            && (HmacSha256(env, c, v).Success? && c.fromBase64Url(sig).Some? ==>
                  var expected := HmacSha256(env, c, v).value;
                  var got := c.fromBase64Url(sig).value;
                  && (|got| != |expected| ==> r == Throws)
                  && (|got| == |expected| && got != expected ==> r == Rejected)
                  && (got == expected ==> r == Verified(v)))
  {
    var signed := cookies[name];
    Text.LastIndexOfJoin(v, SEPARATOR, sig);
    assert signed[..|v|] == v && signed[|v| + 1..] == sig;
  }

  /** Reading a cookie throws exactly when it splits at its last '.' into a value and a
      decodable signature whose MAC has a different length from the expected one. Every
      other failure is null. */
  lemma ThrowsIff(env: Env, c: Crypto, cookies: map<string, string>, name: string)
    ensures GetSignedCookie(env, c, cookies, name) == Throws <==>
              name in cookies &&
              exists v, sig :: cookies[name] == v + [SEPARATOR] + sig && SEPARATOR !in sig &&
                               HmacSha256(env, c, v).Success? && c.fromBase64Url(sig).Some? &&
                               |c.fromBase64Url(sig).value| != |HmacSha256(env, c, v).value|
  {
    if GetSignedCookie(env, c, cookies, name) == Throws {
      var signed := cookies[name];
      var idx := Text.LastIndexOf(signed, SEPARATOR);
      var v, sig := signed[..idx], signed[idx + 1..];
      assert signed == v + [SEPARATOR] + sig;
      assert SEPARATOR !in sig by {
        forall k | 0 <= k < |sig| ensures sig[k] != SEPARATOR {
          assert sig[k] == signed[idx + 1 + k];
        }
      }
    }
    if name in cookies &&
       exists v, sig :: cookies[name] == v + [SEPARATOR] + sig && SEPARATOR !in sig &&
                        HmacSha256(env, c, v).Success? && c.fromBase64Url(sig).Some? &&
                        |c.fromBase64Url(sig).value| != |HmacSha256(env, c, v).value| {
      var v, sig :| cookies[name] == v + [SEPARATOR] + sig && SEPARATOR !in sig &&
                    HmacSha256(env, c, v).Success? && c.fromBase64Url(sig).Some? &&
                    |c.fromBase64Url(sig).value| != |HmacSha256(env, c, v).value|;
      WrongLengthThrows(env, c, cookies, name, v, sig);
    }
  }
}
