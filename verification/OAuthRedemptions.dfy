/**
 From an authorization to its token: when an issued code is still good.
 */
module OAuthRedemptions {
  import opened Options
  import opened OAuthProxy
  import opened OAuthRuns

  /** The state after the first `n` events. */
  function At(cfg: Config, events: seq<Event>, n: nat): State
    requires n <= |events| && Run(cfg, START, events, n).Some?
  {
    Run(cfg, START, events, n).value
  }

  lemma {:induction false} Earlier(cfg: Config, events: seq<Event>, i: nat, n: nat)
    requires i <= n <= |events| && Run(cfg, START, events, n).Some?
    ensures Run(cfg, START, events, i).Some?
    decreases n
  {
    hide Step;
    if i < n { Earlier(cfg, events, i, n - 1); }
  }

  /** Event `i` issues `code`. */
  ghost predicate Issues(events: seq<Event>, i: nat, code: string) {
    i < |events| && events[i].IssueCode? && events[i].code == code
  }

  /** Event `j` takes `code` out of the store, or looks for it there. */
  ghost predicate Takes(cfg: Config, events: seq<Event>, j: nat, code: string)
    requires j < |events| && Run(cfg, START, events, j).Some?
  {
    && events[j].TakeCode? && events[j].id in At(cfg, events, j).requests
    && At(cfg, events, j).requests[events[j].id].Redeeming?
    && At(cfg, events, j).requests[events[j].id].r.code == code
  }

  ghost predicate NotTaken(cfg: Config, events: seq<Event>, i: nat, n: nat, code: string)
    requires n <= |events| && Run(cfg, START, events, n).Some?
  {
    forall j | i <= j < n :: Run(cfg, START, events, j).Some? ==> !Takes(cfg, events, j, code)
  }

  /** What a code was issued for, and when. */
  function IssuedFor(cfg: Config, events: seq<Event>, i: nat, code: string): (r: (Params, int))
    requires i < |events| && Run(cfg, START, events, i + 1).Some? && Issues(events, i, code)
  {
    assert Step(cfg, At(cfg, events, i), events[i]).Some?;
    var s := At(cfg, events, i);
    (s.requests[events[i].id].params, s.now)
  }

  lemma StepKeepsCode(cfg: Config, s: State, e: Event, code: string)
    requires Step(cfg, s, e).Some? && code in s.codes && code in s.drawn
    requires e.TakeCode? && e.id in s.requests && s.requests[e.id].Redeeming? ==> s.requests[e.id].r.code != code
    ensures var t := Step(cfg, s, e).value; code in t.codes && t.codes[code] == s.codes[code] && code in t.drawn
  {
    hide Authorize, CheckGrant;
  }

  /** A code that was issued and never taken is in the store as it was issued: bound to
      this client, the redirect and the challenge it was asked for with, and good until
      600 seconds after. */
  lemma {:induction false} IssuedStays(cfg: Config, events: seq<Event>, i: nat, n: nat, code: string)
    requires i < n <= |events| && Run(cfg, START, events, n).Some? && Run(cfg, START, events, i + 1).Some?
    requires Issues(events, i, code) && NotTaken(cfg, events, i, n, code)
    ensures var (p, at) := IssuedFor(cfg, events, i, code);
      && code in At(cfg, events, n).codes && code in At(cfg, events, n).drawn
      && At(cfg, events, n).codes[code] == AuthCode(p.challenge, p.method', p.redirectUri, cfg.clientId, at + 600)
    decreases n
  {
    if n > i + 1 {
      hide Step, Takes;
      Earlier(cfg, events, n - 1, n);
      IssuedStays(cfg, events, i, n - 1, code);
      assert !Takes(cfg, events, n - 1, code);
      NoTaking(cfg, events, n - 1, code);
      StepKeepsCode(cfg, At(cfg, events, n - 1), events[n - 1], code);
    } else {
      hide Authorize, CheckGrant;
      assert Step(cfg, At(cfg, events, i), events[i]).Some?;
    }
  }

  lemma NoTaking(cfg: Config, events: seq<Event>, j: nat, code: string)
    requires j < |events| && Run(cfg, START, events, j).Some? && !Takes(cfg, events, j, code)
    ensures var s, e := At(cfg, events, j), events[j];
      e.TakeCode? && e.id in s.requests && s.requests[e.id].Redeeming? ==> s.requests[e.id].r.code != code
  {
  }

  /** After any run, an undisturbed redemption of a code that was issued and not yet
      taken mints a token if and only if redirect and client are those the code was
      issued for, the verifier meets its challenge, and no more than 600 seconds have
      passed since. */
  lemma RedemptionMintsIff(cfg: Config, events: seq<Event>, i: nat, id: nat, r: Request, token: string)
    requires Run(cfg, START, events, |events|).Some? && i < |events| && Run(cfg, START, events, i + 1).Some?
    requires Issues(events, i, r.code) && NotTaken(cfg, events, i, |events|, r.code)
    requires r.grantType == "authorization_code"
    requires id !in At(cfg, events, |events|).requests && token !in At(cfg, events, |events|).drawn
    ensures var s, (p, at) := At(cfg, events, |events|), IssuedFor(cfg, events, i, r.code);
      var good := r.redirectUri == p.redirectUri && r.clientId == cfg.clientId && cfg.s256(r.verifier) == p.challenge
                  && s.now - at <= 600;
      var more := [ArriveToken(id, r), TakeCode(id), CheckCode(id)] + if good then [MintToken(id, token)] else [];
      && Run(cfg, s, more, |more|).Some?
      && var t := Run(cfg, s, more, |more|).value;
      && t.requests == s.requests && t.codes == s.codes - {r.code}
      && t.tokens == (if good then s.tokens[token := s.now + cfg.ttl] else s.tokens)
      && t.minted.Keys == (if good then s.minted.Keys + {token} else s.minted.Keys)
  {
    var s := At(cfg, events, |events|);
    IssuedStays(cfg, events, i, |events|, r.code);
    hide Run, Step, NotTaken, IssuedFor;
    AloneIsHandled(cfg, s, id, r, token);
  }

  /** An authorization request gets its code if and only if its query asks this client
      for one with a listed redirect and an S256 challenge, and either there is no PIN
      and it came by GET, or its form brings the PIN and such a redirect and challenge
      of its own, which are then the ones that count. */
  lemma AuthorizationIssuesIff(cfg: Config, s: State, id: nat, m: HttpMethod, q: Query, form: PinPost, code: string)
    requires id !in s.requests && code !in s.drawn
    ensures var p := if cfg.pin == "" then q.params else form.params;
      var arrived := Step(cfg, s, ArriveAuthorize(id, m, q, form));
      && arrived.Some?
      && (Step(cfg, arrived.value, IssueCode(id, code)).Some? <==>
            && q.responseType == "code" && q.clientId == cfg.clientId
            && q.params.redirectUri != "" && (cfg.redirects == [] || q.params.redirectUri in cfg.redirects)
            && q.params.challenge != "" && q.params.method' == "S256"
            && (if cfg.pin == "" then m == Get else m == Post && form.pin == cfg.pin)
            && p.redirectUri != "" && (cfg.redirects == [] || p.redirectUri in cfg.redirects)
            && p.challenge != "" && p.method' == "S256")
      && (Step(cfg, arrived.value, IssueCode(id, code)).Some? ==>
            Step(cfg, arrived.value, IssueCode(id, code)).value.codes
              == s.codes[code := AuthCode(p.challenge, p.method', p.redirectUri, cfg.clientId, s.now + 600)])
  {
    var p := if cfg.pin == "" then q.params else form.params;
    AuthorizedIff(cfg, m, q, form, p);
    AuthorizedParamsAreAllowed(cfg, m, q, form);
    hide Authorize;
  }
}
