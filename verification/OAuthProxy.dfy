/**
 The OAuth endpoints of `cmd/mcp-oauth-proxy`: the checks before a code is issued, and
 the critical sections on the code and token stores.  Times are seconds; the S256
 transform and the random strings are parameters.
 */
module OAuthProxy {
  import opened Options

  const CODE_TTL := 600

  datatype Config = Config(clientId: string, pin: string, ttl: int, redirects: seq<string>, s256: string -> string)

  datatype Params = Params(state: string, redirectUri: string, challenge: string, method': string)

  datatype AuthCode = AuthCode(challenge: string, method': string, redirectUri: string, clientId: string, expires: int)

  /** What the token endpoint is asked for. */
  datatype Request = Request(grantType: string, code: string, redirectUri: string, verifier: string, clientId: string)

  datatype Refusal =
    | UnsupportedResponseType | InvalidClient | MissingRedirect | InvalidRedirect | PkceRequired
    | MethodNotAllowed | PinForm | InvalidPin
    | UnsupportedGrantType | CodeInvalid | Mismatch | PkceFailed

  datatype Result<T> = Ok(value: T) | Refused(why: Refusal)

  // ---------------------------------------------------------------------------
  // The authorization endpoint
  // ---------------------------------------------------------------------------

  function ValidateRedirectAndPkce(cfg: Config, redirectUri: string, challenge: string, method': string): Option<Refusal> {
    if redirectUri == "" then Some(MissingRedirect)
    else if cfg.redirects != [] && redirectUri !in cfg.redirects then Some(InvalidRedirect)
    else if challenge == "" || method' != "S256" then Some(PkceRequired)
    else None
  }

  datatype Query = Query(responseType: string, clientId: string, params: Params)

  function ValidateAuthorizeQuery(cfg: Config, q: Query): Option<Refusal> {
    if q.responseType != "code" then Some(UnsupportedResponseType)
    else if q.clientId != cfg.clientId then Some(InvalidClient)
    else ValidateRedirectAndPkce(cfg, q.params.redirectUri, q.params.challenge, q.params.method')
  }

  datatype HttpMethod = Get | Post | OtherMethod

  datatype PinPost = PinPost(pin: string, params: Params)

  function AcceptPinPost(cfg: Config, form: PinPost): Result<Params> {
    if form.pin != cfg.pin then Refused(InvalidPin)
    else
      match ValidateRedirectAndPkce(cfg, form.params.redirectUri, form.params.challenge, form.params.method')
      case Some(why) => Refused(why)
      case None => Ok(form.params)
  }

  /** The parameters a code is issued for. */
  function Authorize(cfg: Config, m: HttpMethod, q: Query, form: PinPost): Result<Params> {
    match ValidateAuthorizeQuery(cfg, q)
    case Some(why) => Refused(why)
    case None =>
      if cfg.pin == "" then if m == Get then Ok(q.params) else Refused(MethodNotAllowed)
      else
        match m
        case Get => Refused(PinForm)
        case Post => AcceptPinPost(cfg, form)
        case OtherMethod => Refused(MethodNotAllowed)
  }

  /** Where codes may be sent, and what they must be bound to. */
  predicate Allowed(cfg: Config, redirectUri: string, challenge: string, method': string) {
    redirectUri != "" && (cfg.redirects == [] || redirectUri in cfg.redirects) && challenge != "" && method' == "S256"
  }

  /** An authorization request gets a code exactly when its query names this client and
      asks for one, it came by the right method, with the PIN where there is one, and
      the redirect is on the list and bound to an S256 challenge. */
  lemma AuthorizedIff(cfg: Config, m: HttpMethod, q: Query, form: PinPost, p: Params)
    ensures Authorize(cfg, m, q, form) == Ok(p) <==>
      && q.responseType == "code" && q.clientId == cfg.clientId
      && q.params.redirectUri != "" && (cfg.redirects == [] || q.params.redirectUri in cfg.redirects)
      && q.params.challenge != "" && q.params.method' == "S256"
      && if cfg.pin == "" then m == Get && p == q.params
         else m == Post && form.pin == cfg.pin && p == form.params
              && p.redirectUri != "" && (cfg.redirects == [] || p.redirectUri in cfg.redirects)
              && p.challenge != "" && p.method' == "S256"
  {
  }

  /** Neither the query nor the PIN form gets past the redirect and PKCE rules, and
      with a PIN configured only a form with that PIN gets anywhere. */
  lemma AuthorizedParamsAreAllowed(cfg: Config, m: HttpMethod, q: Query, form: PinPost)
    ensures var r := Authorize(cfg, m, q, form);
      && (r.Ok? ==> Allowed(cfg, r.value.redirectUri, r.value.challenge, r.value.method'))
      && (r.Ok? ==> q.responseType == "code" && q.clientId == cfg.clientId)
      && (r.Ok? ==> r.value == if cfg.pin == "" then q.params else form.params)
      && (r.Ok? && cfg.pin != "" ==> m == Post && form.pin == cfg.pin)
  {
  }

  function NewCode(cfg: Config, p: Params, now: int): AuthCode {
    AuthCode(p.challenge, p.method', p.redirectUri, cfg.clientId, now + CODE_TTL)
  }

  // ---------------------------------------------------------------------------
  // The token endpoint
  // ---------------------------------------------------------------------------

  /** The checks on a code taken from the store. */
  function CheckGrant(cfg: Config, r: Request, taken: Option<AuthCode>, now: int): Result<()> {
    if taken == None || now > taken.value.expires then Refused(CodeInvalid)
    else if taken.value.redirectUri != r.redirectUri || taken.value.clientId != r.clientId then Refused(Mismatch)
    else if taken.value.challenge != cfg.s256(r.verifier) then Refused(PkceFailed)
    else Ok(())
  }

  /** What a sweep at `now` leaves. */
  function Unexpired(tokens: map<string, int>, now: int): map<string, int> {
    map t | t in tokens && now <= tokens[t] :: tokens[t]
  }

  function Lookup<V>(m: map<string, V>, k: string): Option<V> {
    if k in m then Some(m[k]) else None
  }

  /** The two stores; every method is what happens under one lock. */
  class Stores {
    var codes: map<string, AuthCode>
    var tokens: map<string, int>

    constructor ()
      ensures codes == map[] && tokens == map[]
    {
      codes, tokens := map[], map[];
    }

    method StoreCode(cfg: Config, p: Params, code: string, now: int)
      modifies this
      // the code is good for ten minutes
      ensures codes == old(codes)[code := AuthCode(p.challenge, p.method', p.redirectUri, cfg.clientId, now + 600)]
      ensures codes == old(codes)[code := NewCode(cfg, p, now)] && tokens == old(tokens)
    {
      codes := codes[code := AuthCode(p.challenge, p.method', p.redirectUri, cfg.clientId, now + CODE_TTL)];
    }

    /** Looks a code up and takes it out in one go. */
    method TakeCode(code: string) returns (taken: Option<AuthCode>)
      modifies this
      ensures taken == if code in old(codes) then Some(old(codes)[code]) else None
      ensures codes == old(codes) - {code} && tokens == old(tokens)
    {
      taken := None;
      if code in codes {
        taken := Some(codes[code]);
        codes := codes - {code};
      }
    }

    method StoreToken(cfg: Config, token: string, now: int)
      modifies this
      ensures tokens == old(tokens)[token := now + cfg.ttl] && codes == old(codes)
    {
      tokens := tokens[token := now + cfg.ttl];
    }

    /** A whole redemption without anyone interfering: the clock is read at the check
        (`t1`) and at the store (`t2`). */
    method HandleToken(cfg: Config, r: Request, token: string, t1: int, t2: int) returns (reply: Result<string>)
      modifies this
      ensures codes == if r.grantType == "authorization_code" then old(codes) - {r.code} else old(codes)
      ensures tokens == if reply.Ok? then old(tokens)[token := t2 + cfg.ttl] else old(tokens)
      // what each check refuses, the first that fails deciding
      ensures r.grantType != "authorization_code" ==> reply == Refused(UnsupportedGrantType)
      ensures r.grantType == "authorization_code" && (r.code !in old(codes) || old(codes)[r.code].expires < t1) ==>
                reply == Refused(CodeInvalid)
      ensures r.grantType == "authorization_code" && r.code in old(codes) && t1 <= old(codes)[r.code].expires ==>
                var ac := old(codes)[r.code];
                if r.redirectUri != ac.redirectUri || r.clientId != ac.clientId then reply == Refused(Mismatch)
                else if cfg.s256(r.verifier) != ac.challenge then reply == Refused(PkceFailed)
                else reply == Ok(token)
    {
      if r.grantType != "authorization_code" {
        return Refused(UnsupportedGrantType);
      }
      var taken := TakeCode(r.code);
      if taken == None || t1 > taken.value.expires {
        return Refused(CodeInvalid);
      }
      var ac := taken.value;
      if ac.redirectUri != r.redirectUri || ac.clientId != r.clientId {
        return Refused(Mismatch);
      }
      if ac.challenge != cfg.s256(r.verifier) {
        return Refused(PkceFailed);
      }
      StoreToken(cfg, token, t2);
      return Ok(token);
    }

    method SweepExpiredTokens(now: int)
      modifies this
      ensures codes == old(codes) && forall t :: t in tokens <==> t in old(tokens) && now <= old(tokens)[t]
      ensures forall t :: t in tokens ==> tokens[t] == old(tokens)[t]
      ensures tokens == Unexpired(old(tokens), now)
    {
      var todo := tokens.Keys;
      ghost var was := tokens;
      while todo != {}
        invariant todo <= was.Keys && codes == old(codes)
        invariant forall t :: t in tokens <==> t in was && (t in todo || now <= was[t])
        invariant forall t :: t in tokens ==> tokens[t] == was[t]
        decreases |todo|
      {
        var t :| t in todo;
        if now > tokens[t] {
          tokens := tokens - {t};
        }
        todo := todo - {t};
      }
    }

    /** Whether a request with this token passes: the look-up, then the clock. */
    method Authenticate(token: string, now: int) returns (ok: bool)
      ensures ok <==> token != "" && token in tokens && now <= tokens[token]
    {
      if token == "" {
        return false;
      }
      var found := Lookup(tokens, token);
      if found == None || now > found.value {
        return false;
      }
      return true;
    }
  }
}
