/**
 Runs of the OAuth proxy: any number of requests at once, interleaved at the critical
 sections and clock readings, with sweeps in between.
 */
module OAuthRuns {
  import opened Options
  import opened OAuthProxy

  /** Where a request stands between two atomic steps. */
  datatype Request' =
    | Issuing(params: Params)                             // all checks passed
    | Redeeming(r: Request)                               // before the code is taken
    | Checking(r: Request, taken: Option<AuthCode>)       // after it
    | Minting(r: Request, ac: AuthCode, checkedAt: int)   // checks passed
    | Asking(token: string)                               // before the look-up
    | Answering(token: string, found: Option<int>, minted: bool)  // after it

  /** How a token came about. */
  datatype Grant = Grant(r: Request, ac: AuthCode, checkedAt: int, mintedAt: int)

  datatype Answer = Answer(token: string, minted: bool, at: int, ok: bool)

  /** The stores, the clock and the requests under way; and, for the record, every
      code issued, every token minted, every random string drawn and every answer
      given. */
  datatype State = State(
    now: int, codes: map<string, AuthCode>, tokens: map<string, int>, requests: map<nat, Request'>,
    issued: map<string, AuthCode>, minted: map<string, Grant>, drawn: set<string>, answers: seq<Answer>)

  const START := State(0, map[], map[], map[], map[], map[], {}, [])

  datatype Event =
    | Tick(to: int)
    | ArriveAuthorize(id: nat, m: HttpMethod, q: Query, form: PinPost)
    | IssueCode(id: nat, code: string)
    | ArriveToken(id: nat, r: Request)
    | TakeCode(id: nat)
    | CheckCode(id: nat)
    | MintToken(id: nat, token: string)
    | ArriveBearer(id: nat, token: string)
    | LookUp(id: nat)
    | Reply(id: nat)
    | Sweep

  /** A request moves on. */
  function Move(s: State, id: nat, r: Request'): State {
    s.(requests := s.requests[id := r])
  }

  function Leave(s: State, id: nat): State {
    s.(requests := s.requests - {id})
  }

  /** One atomic step; none if it is not possible in `s`.  Random strings never repeat
      and the clock never goes back. */
  function Step(cfg: Config, s: State, e: Event): Option<State> {
    match e
    case Tick(to) =>
      if to > s.now then Some(s.(now := to)) else None
    case ArriveAuthorize(id, m, q, form) =>
      if id in s.requests then None
      else
        var r := Authorize(cfg, m, q, form);
        Some(if r.Ok? then Move(s, id, Issuing(r.value)) else s)
    case IssueCode(id, code) =>
      if id in s.requests && s.requests[id].Issuing? && code !in s.drawn then
        var ac := NewCode(cfg, s.requests[id].params, s.now);
        Some(Leave(s, id).(codes := s.codes[code := ac], issued := s.issued[code := ac], drawn := s.drawn + {code}))
      else None
    case ArriveToken(id, r) =>
      if id in s.requests then None
      else if r.grantType != "authorization_code" then Some(s)
      else Some(Move(s, id, Redeeming(r)))
    case TakeCode(id) =>
      if id in s.requests && s.requests[id].Redeeming? then
        var r := s.requests[id].r;
        Some(Move(s, id, Checking(r, Lookup(s.codes, r.code))).(codes := s.codes - {r.code}))
      else None
    case CheckCode(id) =>
      if id in s.requests && s.requests[id].Checking? then
        var Checking(r, taken) := s.requests[id];
        if CheckGrant(cfg, r, taken, s.now).Ok? then Some(Move(s, id, Minting(r, taken.value, s.now))) else Some(Leave(s, id))
      else None
    case MintToken(id, token) =>
      if id in s.requests && s.requests[id].Minting? && token !in s.drawn then
        var Minting(r, ac, checkedAt) := s.requests[id];
        Some(Leave(s, id).(tokens := s.tokens[token := s.now + cfg.ttl],
                           minted := s.minted[token := Grant(r, ac, checkedAt, s.now)], drawn := s.drawn + {token}))
      else None
    case ArriveBearer(id, token) =>
      if id in s.requests || token == "" then None else Some(Move(s, id, Asking(token)))
    case LookUp(id) =>
      if id in s.requests && s.requests[id].Asking? then
        var t := s.requests[id].token;
        Some(Move(s, id, Answering(t, Lookup(s.tokens, t), t in s.minted)))
      else None
    case Reply(id) =>
      if id in s.requests && s.requests[id].Answering? then
        var Answering(t, found, minted) := s.requests[id];
        Some(Leave(s, id).(answers := s.answers + [Answer(t, minted, s.now, found.Some? && s.now <= found.value)]))
      else None
    case Sweep => Some(s.(tokens := Unexpired(s.tokens, s.now)))
  }

  /** The state after the first `n` events, if they are all possible. */
  function Run(cfg: Config, s: State, events: seq<Event>, n: nat): Option<State>
    requires n <= |events|
  {
    if n == 0 then Some(s)
    else
      match Run(cfg, s, events, n - 1)
      case None => None
      case Some(t) => Step(cfg, t, events[n - 1])
  }

  // ---------------------------------------------------------------------------
  // The steps are the critical sections of `Stores`
  // ---------------------------------------------------------------------------

  /** The methods do to the two stores what the steps say. */
  method Perform(stores: Stores, cfg: Config, s: State, e: Event)
    requires Step(cfg, s, e).Some? && stores.codes == s.codes && stores.tokens == s.tokens
    modifies stores
    ensures stores.codes == Step(cfg, s, e).value.codes && stores.tokens == Step(cfg, s, e).value.tokens
  {
    match e
    case IssueCode(id, code) =>
      stores.StoreCode(cfg, s.requests[id].params, code, s.now);
    case TakeCode(id) =>
      var taken := stores.TakeCode(s.requests[id].r.code);
    case MintToken(id, token) =>
      stores.StoreToken(cfg, token, s.now);
    case Sweep =>
      stores.SweepExpiredTokens(s.now);
    case _ =>
  }

  function RedeemEvents(id: nat, r: Request, token: string, passes: bool): seq<Event> {
    [ArriveToken(id, r), TakeCode(id), CheckCode(id)] + if passes then [MintToken(id, token)] else []
  }

  /** Among all others, a redemption that is not disturbed does what
      `Stores.HandleToken` does. */
  lemma AloneIsHandled(cfg: Config, s: State, id: nat, r: Request, token: string)
    requires id !in s.requests && token !in s.drawn && r.grantType == "authorization_code"
    ensures var passes := CheckGrant(cfg, r, Lookup(s.codes, r.code), s.now) == Ok(());
      var events := RedeemEvents(id, r, token, passes);
      && Run(cfg, s, events, |events|).Some?
      && var t := Run(cfg, s, events, |events|).value;
      && t.codes == s.codes - {r.code} && t.requests == s.requests
      && t.tokens == (if passes then s.tokens[token := s.now + cfg.ttl] else s.tokens)
      && t.minted.Keys == (if passes then s.minted.Keys + {token} else s.minted.Keys)
  {
    var passes := CheckGrant(cfg, r, Lookup(s.codes, r.code), s.now) == Ok(());
    var events := RedeemEvents(id, r, token, passes);
    var s1, s2, s3 := RedeemSteps(cfg, s, id, r, passes);
    assert passes ==> Step(cfg, s3, MintToken(id, token)).Some?;
    var t := if passes then Step(cfg, s3, MintToken(id, token)).value else s3;
    assert t.requests == s.requests;
    hide Step, CheckGrant;
    assert events[0] == ArriveToken(id, r) && events[1] == TakeCode(id) && events[2] == CheckCode(id);
    assert Run(cfg, s, events, 0) == Some(s);
    assert Run(cfg, s, events, 1) == Some(s1);
    assert Run(cfg, s, events, 2) == Some(s2);
    assert Run(cfg, s, events, 3) == Some(s3);
    if passes { assert events[3] == MintToken(id, token) && Run(cfg, s, events, 4) == Some(t); }
  }

  lemma RedeemSteps(cfg: Config, s: State, id: nat, r: Request, passes: bool) returns (s1: State, s2: State, s3: State)
    requires id !in s.requests && r.grantType == "authorization_code"
    requires passes == (CheckGrant(cfg, r, Lookup(s.codes, r.code), s.now) == Ok(()))
    ensures Step(cfg, s, ArriveToken(id, r)) == Some(s1) && Step(cfg, s1, TakeCode(id)) == Some(s2)
    ensures Step(cfg, s2, CheckCode(id)) == Some(s3)
    ensures s3.requests - {id} == s.requests && s3.codes == s.codes - {r.code} && s3 == s.(requests := s3.requests, codes := s3.codes)
    ensures if passes then id in s3.requests && s3.requests[id].Minting? else id !in s3.requests
  {
    var taken := Lookup(s.codes, r.code);
    s1 := Move(s, id, Redeeming(r));
    s2 := Move(s1, id, Checking(r, taken)).(codes := s.codes - {r.code});
    s3 := if passes then Move(s2, id, Minting(r, taken.value, s.now)) else Leave(s2, id);
    assert s3.requests - {id} == s.requests;
  }

  // ---------------------------------------------------------------------------
  // The invariant
  // ---------------------------------------------------------------------------

  predicate GoodCode(cfg: Config, ac: AuthCode) {
    Allowed(cfg, ac.redirectUri, ac.challenge, ac.method') && ac.clientId == cfg.clientId
  }

  /** The code was unexpired and bound to what the request brought along. */
  predicate Matches(cfg: Config, r: Request, ac: AuthCode, at: int) {
    at <= ac.expires && r.redirectUri == ac.redirectUri && r.clientId == ac.clientId && cfg.s256(r.verifier) == ac.challenge
  }

  /** A request that has a code in hand. */
  predicate Holds(q: Request', code: string) {
    (q.Checking? && q.taken.Some? && q.r.code == code) || (q.Minting? && q.r.code == code)
  }

  ghost predicate CodesAreIssued(cfg: Config, s: State) {
    && (forall c :: c in s.codes ==> c in s.issued && s.issued[c] == s.codes[c])
    && (forall c :: c in s.issued ==> GoodCode(cfg, s.issued[c]) && c in s.drawn)
    && (forall id :: id in s.requests && s.requests[id].Issuing? ==>
          var p := s.requests[id].params; Allowed(cfg, p.redirectUri, p.challenge, p.method'))
  }

  ghost predicate HoldersAreRight(cfg: Config, s: State) {
    && (forall id :: id in s.requests && s.requests[id].Checking? && s.requests[id].taken.Some? ==>
          s.requests[id].r.code in s.issued && s.issued[s.requests[id].r.code] == s.requests[id].taken.value)
    && (forall id :: id in s.requests && s.requests[id].Minting? ==>
          var q := s.requests[id];
          q.r.code in s.issued && s.issued[q.r.code] == q.ac && Matches(cfg, q.r, q.ac, q.checkedAt) && q.checkedAt <= s.now)
  }

  /** A code is in the store, or in one hand, or spent on one token. */
  ghost predicate CodesAreOnce(s: State) {
    && (forall id, c :: id in s.requests && c in s.codes ==> !Holds(s.requests[id], c))
    && (forall i, j, c :: i in s.requests && j in s.requests && Holds(s.requests[i], c) && Holds(s.requests[j], c) ==> i == j)
    && (forall t :: t in s.minted ==> s.minted[t].r.code !in s.codes)
    && (forall t, id :: t in s.minted && id in s.requests ==> !Holds(s.requests[id], s.minted[t].r.code))
    && (forall t, u :: t in s.minted && u in s.minted && s.minted[t].r.code == s.minted[u].r.code ==> t == u)
  }

  ghost predicate TokensAreMinted(cfg: Config, s: State) {
    && (forall t :: t in s.tokens ==> t in s.minted && s.tokens[t] == s.minted[t].mintedAt + cfg.ttl)
    && (forall t :: t in s.minted ==>
          var g := s.minted[t];
          && t in s.drawn && g.r.code in s.issued && s.issued[g.r.code] == g.ac
          && Matches(cfg, g.r, g.ac, g.checkedAt) && g.checkedAt <= g.mintedAt <= s.now)
  }

  /** Whether a token that was minted at the look-up is (still) good at `at`. */
  predicate StillGood(cfg: Config, s: State, token: string, at: int)
    requires token in s.minted
  {
    at <= s.minted[token].mintedAt + cfg.ttl
  }

  /** Only expired tokens were swept. */
  ghost predicate GoodTokensStay(cfg: Config, s: State) {
    forall t :: t in s.minted && StillGood(cfg, s, t, s.now) ==> t in s.tokens
  }

  ghost predicate LookUpsAreRight(cfg: Config, s: State) {
    forall id :: id in s.requests && s.requests[id].Answering? ==>
      var q := s.requests[id];
      && (q.minted ==> q.token in s.minted)
      && (q.found.Some? ==> q.minted && q.found.value == s.minted[q.token].mintedAt + cfg.ttl)
      && (q.found == None && q.minted ==> !StillGood(cfg, s, q.token, s.now))
  }

  ghost predicate LogIsRight(cfg: Config, s: State) {
    forall i | 0 <= i < |s.answers| ::
      var a := s.answers[i];
      (a.minted ==> a.token in s.minted) && (a.ok <==> a.minted && StillGood(cfg, s, a.token, a.at))
  }

  ghost predicate AnswersAreExact(cfg: Config, s: State) {
    GoodTokensStay(cfg, s) && LookUpsAreRight(cfg, s) && LogIsRight(cfg, s)
  }

  ghost predicate Invariant(cfg: Config, s: State) {
    CodesAreIssued(cfg, s) && HoldersAreRight(cfg, s) && CodesAreOnce(s) && TokensAreMinted(cfg, s) && AnswersAreExact(cfg, s)
  }

  /** Steps that change nothing about codes, tokens and answers but requests moving
      among the stages that have neither a code nor an answer in hand. */
  predicate Idle(e: Event) {
    e.ArriveAuthorize? || e.ArriveToken? || e.ArriveBearer?
  }

  /** An arriving request starts empty-handed; the rest of the state stays. */
  lemma IdleSteps(cfg: Config, s: State, e: Event)
    requires Idle(e) && Step(cfg, s, e).Some?
    ensures var t := Step(cfg, s, e).value;
      && t == s.(requests := t.requests)
      && forall id :: id in t.requests ==>
           if id in s.requests then t.requests[id] == s.requests[id]
           else (t.requests[id].Redeeming? || t.requests[id].Asking?
                 || (t.requests[id].Issuing? && var p := t.requests[id].params; Allowed(cfg, p.redirectUri, p.challenge, p.method')))
  {
    if e.ArriveAuthorize? { AuthorizedParamsAreAllowed(cfg, e.m, e.q, e.form); hide Authorize; }
  }

  lemma IdleKeepsInvariant(cfg: Config, s: State, e: Event)
    requires Invariant(cfg, s) && Idle(e) && Step(cfg, s, e).Some?
    ensures CodesAreIssued(cfg, Step(cfg, s, e).value) && HoldersAreRight(cfg, Step(cfg, s, e).value)
    ensures CodesAreOnce(Step(cfg, s, e).value)
  {
    hide Step, AnswersAreExact, TokensAreMinted, Allowed, Matches, GoodCode;
    IdleSteps(cfg, s, e);
    var t := Step(cfg, s, e).value;
    assert CodesAreIssued(cfg, t) by { hide CodesAreOnce, HoldersAreRight, Holds; }
    assert HoldersAreRight(cfg, t) by { hide CodesAreOnce, CodesAreIssued, Holds; }
    assert CodesAreOnce(t) by {
      assert forall id, c :: id in t.requests && Holds(t.requests[id], c) ==> id in s.requests && t.requests[id] == s.requests[id];
      hide CodesAreIssued, HoldersAreRight, Holds;
    }
  }

  lemma IdleKeepsAnswers(cfg: Config, s: State, e: Event)
    requires Invariant(cfg, s) && Idle(e) && Step(cfg, s, e).Some?
    ensures TokensAreMinted(cfg, Step(cfg, s, e).value) && AnswersAreExact(cfg, Step(cfg, s, e).value)
  {
    hide Step, Allowed, Matches, GoodCode, CodesAreIssued, HoldersAreRight, CodesAreOnce;
    IdleSteps(cfg, s, e);
    var t := Step(cfg, s, e).value;
    assert TokensAreMinted(cfg, t) by { hide AnswersAreExact; }
    assert AnswersAreExact(cfg, t) by { hide TokensAreMinted; }
  }

  /** What a step can and cannot change. */
  lemma StepFrame(cfg: Config, s: State, e: Event)
    requires !Idle(e) && Step(cfg, s, e).Some?
    ensures var t := Step(cfg, s, e).value;
      && s.now <= t.now && s.drawn <= t.drawn
      && (!e.IssueCode? ==> t.issued == s.issued)
      && (!e.MintToken? ==> t.minted == s.minted)
      && (forall c :: c in s.issued && c in s.drawn ==> c in t.issued && t.issued[c] == s.issued[c])
      && (!e.IssueCode? ==> forall c :: c in t.codes ==> c in s.codes && t.codes[c] == s.codes[c])
      && (!e.MintToken? ==> forall u :: u in t.tokens ==> u in s.tokens && t.tokens[u] == s.tokens[u])
      && (forall id :: id in t.requests && t.requests[id].Issuing? ==> id in s.requests && t.requests[id] == s.requests[id])
      && (!e.TakeCode? && !e.CheckCode? ==>
            forall id :: id in t.requests && (t.requests[id].Checking? || t.requests[id].Minting?) ==>
              id in s.requests && t.requests[id] == s.requests[id])
  {
    hide CheckGrant, NewCode;
  }

  lemma CodesAreIssuedKept(cfg: Config, s: State, e: Event)
    requires Invariant(cfg, s) && !Idle(e) && Step(cfg, s, e).Some?
    ensures CodesAreIssued(cfg, Step(cfg, s, e).value)
  {
    hide CodesAreOnce, TokensAreMinted, AnswersAreExact, HoldersAreRight, Allowed, GoodCode, Step;
    StepFrame(cfg, s, e);
    if e.IssueCode? { IssuedIsGood(cfg, s, e); }
  }

  lemma IssuedIsGood(cfg: Config, s: State, e: Event)
    requires Invariant(cfg, s) && Step(cfg, s, e).Some? && e.IssueCode?
    ensures CodesAreIssued(cfg, Step(cfg, s, e).value)
  {
    hide CodesAreOnce, TokensAreMinted, AnswersAreExact, HoldersAreRight, Allowed;
  }

  lemma HoldersAreRightKept(cfg: Config, s: State, e: Event)
    requires Invariant(cfg, s) && !Idle(e) && Step(cfg, s, e).Some?
    ensures HoldersAreRight(cfg, Step(cfg, s, e).value)
  {
    hide CodesAreOnce, TokensAreMinted, AnswersAreExact, GoodCode, Step, Matches;
    if e.TakeCode? || e.CheckCode? {
      HandsAreRight(cfg, s, e);
    } else {
      StepFrame(cfg, s, e);
    }
  }

  lemma HandsAreRight(cfg: Config, s: State, e: Event)
    requires Invariant(cfg, s) && Step(cfg, s, e).Some? && (e.TakeCode? || e.CheckCode?)
    ensures HoldersAreRight(cfg, Step(cfg, s, e).value)
  {
    hide CodesAreOnce, TokensAreMinted, AnswersAreExact, GoodCode;
    if e.CheckCode? { hide CodesAreIssued; }
  }

  /** Steps that touch neither codes nor hands. */
  lemma CodesAreOnceElsewhere(cfg: Config, s: State, e: Event)
    requires Invariant(cfg, s) && !Idle(e) && Step(cfg, s, e).Some?
    requires !e.IssueCode? && !e.TakeCode? && !e.CheckCode? && !e.MintToken?
    ensures CodesAreOnce(Step(cfg, s, e).value)
  {
    hide Holds, Authorize, CheckGrant, CodesAreOnce, AnswersAreExact, TokensAreMinted, CodesAreIssued, HoldersAreRight;
    var t := Step(cfg, s, e).value;
    assert t.codes == s.codes && t.minted == s.minted;
    forall id, c | id in t.requests && Holds(t.requests[id], c) ensures id in s.requests && Holds(s.requests[id], c) {
      HandsElsewhere(cfg, s, e, id, c);
    }
    hide Step;
    SameHands(s, t);
  }

  lemma HandsElsewhere(cfg: Config, s: State, e: Event, id: nat, c: string)
    requires Step(cfg, s, e).Some? && !Idle(e) && !e.TakeCode?
    requires id in Step(cfg, s, e).value.requests && Holds(Step(cfg, s, e).value.requests[id], c)
    ensures id in s.requests && Holds(s.requests[id], c)
  {
  }

  /** No hand is new. */
  lemma SameHands(s: State, t: State)
    requires CodesAreOnce(s) && t.minted == s.minted && forall c :: c in t.codes ==> c in s.codes
    requires forall id, c {:trigger Holds(t.requests[id], c)} :: id in t.requests && Holds(t.requests[id], c) ==>
               id in s.requests && Holds(s.requests[id], c)
    ensures CodesAreOnce(t)
  {
    hide Holds;
  }

  /** One hand takes its code out of the store. */
  lemma HandTakes(s: State, t: State, taker: nat, code: string)
    requires CodesAreOnce(s) && t.minted == s.minted && (forall c :: c in t.codes ==> c in s.codes && c != code)
    requires forall id, c {:trigger Holds(t.requests[id], c)} :: id in t.requests && Holds(t.requests[id], c) ==>
               (id == taker ==> c == code && c in s.codes) && (id != taker ==> id in s.requests && Holds(s.requests[id], c))
    ensures CodesAreOnce(t)
  {
    hide Holds;
  }

  lemma CodesAreOnceIssue(cfg: Config, s: State, e: Event)
    requires Invariant(cfg, s) && Step(cfg, s, e).Some? && e.IssueCode?
    ensures CodesAreOnce(Step(cfg, s, e).value)
  {
    hide AnswersAreExact, Authorize, GoodCode, Matches;
    var t := Step(cfg, s, e).value;
    forall id, c | id in t.requests && c in t.codes ensures !Holds(t.requests[id], c) {
      assert id in s.requests && t.requests[id] == s.requests[id];
    }
  }

  lemma CodesAreOnceTake(cfg: Config, s: State, e: Event)
    requires Invariant(cfg, s) && Step(cfg, s, e).Some? && e.TakeCode?
    ensures CodesAreOnce(Step(cfg, s, e).value)
  {
    hide Holds, CodesAreOnce, AnswersAreExact, TokensAreMinted, CodesAreIssued, HoldersAreRight;
    var t, code := Step(cfg, s, e).value, s.requests[e.id].r.code;
    assert t.codes == s.codes - {code} && t.minted == s.minted;
    HandsOnTake(cfg, s, e);
    hide Step;
    HandTakes(s, t, e.id, code);
  }

  lemma HandsOnTake(cfg: Config, s: State, e: Event)
    requires Step(cfg, s, e).Some? && e.TakeCode?
    ensures var t := Step(cfg, s, e).value;
      forall id, c {:trigger Holds(t.requests[id], c)} :: id in t.requests && Holds(t.requests[id], c) ==>
        (id == e.id ==> c == s.requests[e.id].r.code && c in s.codes) && (id != e.id ==> id in s.requests && Holds(s.requests[id], c))
  {
  }

  lemma CodesAreOnceCheck(cfg: Config, s: State, e: Event)
    requires Invariant(cfg, s) && Step(cfg, s, e).Some? && e.CheckCode?
    ensures CodesAreOnce(Step(cfg, s, e).value)
  {
    hide Holds, CheckGrant, CodesAreOnce, AnswersAreExact, TokensAreMinted, CodesAreIssued, HoldersAreRight;
    var t := Step(cfg, s, e).value;
    assert t.codes == s.codes && t.minted == s.minted;
    forall id, c | id in t.requests && Holds(t.requests[id], c) ensures id in s.requests && Holds(s.requests[id], c) {
      HandsElsewhere(cfg, s, e, id, c);
    }
    hide Step;
    SameHands(s, t);
  }

  lemma NewTokenIsNew(cfg: Config, s: State, e: Event)
    requires Invariant(cfg, s) && Step(cfg, s, e).Some? && e.MintToken?
    ensures e.token !in s.minted && e.token !in s.tokens
  {
    hide AnswersAreExact, CodesAreIssued, HoldersAreRight, CodesAreOnce, Matches;
  }

  lemma MintTakesHand(cfg: Config, s: State, e: Event)
    requires Invariant(cfg, s) && Step(cfg, s, e).Some? && e.MintToken?
    ensures var t, code := Step(cfg, s, e).value, s.requests[e.id].r.code;
      && t.codes == s.codes && code !in s.codes
      && (forall id, c {:trigger Holds(t.requests[id], c)} :: id in t.requests && Holds(t.requests[id], c) ==>
            id in s.requests && Holds(s.requests[id], c) && c != code)
      && (forall u :: u in t.minted && u != e.token ==> u in s.minted && t.minted[u] == s.minted[u] && s.minted[u].r.code != code)
      && t.minted[e.token].r.code == code && e.token !in s.minted
  {
    NewTokenIsNew(cfg, s, e);
    hide AnswersAreExact, CodesAreIssued, HoldersAreRight, TokensAreMinted;
    assert Holds(s.requests[e.id], s.requests[e.id].r.code);
  }

  lemma CodesAreOnceMint(cfg: Config, s: State, e: Event)
    requires Invariant(cfg, s) && Step(cfg, s, e).Some? && e.MintToken?
    ensures CodesAreOnce(Step(cfg, s, e).value)
  {
    hide Holds, CodesAreOnce, AnswersAreExact, CodesAreIssued, HoldersAreRight, TokensAreMinted;
    var code := s.requests[e.id].r.code;
    MintTakesHand(cfg, s, e);
    hide Step;
    HandSpends(s, Step(cfg, s, e).value, code, e.token);
  }

  /** One hand spends its code on a new token. */
  lemma HandSpends(s: State, t: State, code: string, token: string)
    requires CodesAreOnce(s) && t.codes == s.codes && code !in s.codes
    requires forall id, c {:trigger Holds(t.requests[id], c)} :: id in t.requests && Holds(t.requests[id], c) ==>
               id in s.requests && Holds(s.requests[id], c) && c != code
    requires forall u :: u in t.minted && u != token ==> u in s.minted && t.minted[u] == s.minted[u] && s.minted[u].r.code != code
    requires token in t.minted ==> t.minted[token].r.code == code
    ensures CodesAreOnce(t)
  {
    hide Holds;
  }

  lemma CodesAreOnceKept(cfg: Config, s: State, e: Event)
    requires Invariant(cfg, s) && !Idle(e) && Step(cfg, s, e).Some?
    ensures CodesAreOnce(Step(cfg, s, e).value)
  {
    hide *;
    if e.IssueCode? { CodesAreOnceIssue(cfg, s, e); }
    else if e.TakeCode? { CodesAreOnceTake(cfg, s, e); }
    else if e.CheckCode? { CodesAreOnceCheck(cfg, s, e); }
    else if e.MintToken? { CodesAreOnceMint(cfg, s, e); }
    else { CodesAreOnceElsewhere(cfg, s, e); }
  }

  lemma TokensAreMintedKept(cfg: Config, s: State, e: Event)
    requires Invariant(cfg, s) && !Idle(e) && Step(cfg, s, e).Some?
    ensures TokensAreMinted(cfg, Step(cfg, s, e).value)
  {
    hide AnswersAreExact, CodesAreOnce, HoldersAreRight, Step, Matches, GoodCode;
    if e.MintToken? {
      MintedIsRight(cfg, s, e);
    } else {
      StepFrame(cfg, s, e);
    }
  }

  lemma MintedIsRight(cfg: Config, s: State, e: Event)
    requires Invariant(cfg, s) && Step(cfg, s, e).Some? && e.MintToken?
    ensures TokensAreMinted(cfg, Step(cfg, s, e).value)
  {
    hide AnswersAreExact, CodesAreOnce, CodesAreIssued, Matches;
  }

  lemma AnswersOnSweep(cfg: Config, s: State, e: Event)
    requires Invariant(cfg, s) && Step(cfg, s, e).Some? && (e.Sweep? || e.Tick?)
    ensures AnswersAreExact(cfg, Step(cfg, s, e).value)
  {
    hide CodesAreOnce, CodesAreIssued, HoldersAreRight;
  }

  /** A new token leaves the others, and what is known of them, as they are. */
  lemma MintFrame(cfg: Config, s: State, e: Event)
    requires Invariant(cfg, s) && Step(cfg, s, e).Some? && e.MintToken?
    ensures var t := Step(cfg, s, e).value;
      && e.token !in s.minted && t.now == s.now && t.answers == s.answers
      && t.tokens == s.tokens[e.token := s.now + cfg.ttl] && t.minted.Keys == s.minted.Keys + {e.token}
      && (forall u :: u in s.minted ==> t.minted[u] == s.minted[u])
      && (forall id :: id in t.requests && t.requests[id].Answering? ==> id in s.requests && t.requests[id] == s.requests[id])
  {
    NewTokenIsNew(cfg, s, e);
    hide Invariant;
  }

  lemma AnswersOnMint(cfg: Config, s: State, e: Event)
    requires Invariant(cfg, s) && Step(cfg, s, e).Some? && e.MintToken?
    ensures AnswersAreExact(cfg, Step(cfg, s, e).value)
  {
    hide Step, CodesAreOnce, CodesAreIssued, HoldersAreRight, TokensAreMinted;
    MintFrame(cfg, s, e);
  }

  lemma AnswersOnReply(cfg: Config, s: State, e: Event)
    requires Invariant(cfg, s) && Step(cfg, s, e).Some? && (e.Reply? || e.LookUp?)
    ensures AnswersAreExact(cfg, Step(cfg, s, e).value)
  {
    hide CodesAreOnce, CodesAreIssued, HoldersAreRight, Matches;
  }

  lemma AnswersElsewhere(cfg: Config, s: State, e: Event)
    requires Invariant(cfg, s) && !Idle(e) && Step(cfg, s, e).Some?
    requires !e.Sweep? && !e.Tick? && !e.MintToken? && !e.Reply? && !e.LookUp?
    ensures AnswersAreExact(cfg, Step(cfg, s, e).value)
  {
    hide CodesAreOnce, CodesAreIssued, HoldersAreRight, Matches, CheckGrant, TokensAreMinted, AnswersAreExact;
    var t := Step(cfg, s, e).value;
    assert t.minted == s.minted && t.tokens == s.tokens && t.now == s.now && t.answers == s.answers;
    assert forall id :: id in t.requests && t.requests[id].Answering? ==> id in s.requests && t.requests[id] == s.requests[id];
    hide Step;
    SameAnswers(cfg, s, t);
  }

  lemma SameAnswers(cfg: Config, s: State, t: State)
    requires AnswersAreExact(cfg, s)
    requires t.minted == s.minted && t.tokens == s.tokens && t.now == s.now && t.answers == s.answers
    requires forall id :: id in t.requests && t.requests[id].Answering? ==> id in s.requests && t.requests[id] == s.requests[id]
    ensures AnswersAreExact(cfg, t)
  {
  }

  lemma AnswersAreExactKept(cfg: Config, s: State, e: Event)
    requires Invariant(cfg, s) && !Idle(e) && Step(cfg, s, e).Some?
    ensures AnswersAreExact(cfg, Step(cfg, s, e).value)
  {
    hide *;
    if e.Sweep? || e.Tick? { AnswersOnSweep(cfg, s, e); }
    else if e.MintToken? { AnswersOnMint(cfg, s, e); }
    else if e.Reply? || e.LookUp? { AnswersOnReply(cfg, s, e); }
    else { AnswersElsewhere(cfg, s, e); }
  }

  lemma StartIsFine(cfg: Config)
    ensures Invariant(cfg, START)
  {
  }

  lemma {:induction false} RunsKeepInvariant(cfg: Config, events: seq<Event>, n: nat)
    requires n <= |events| && Run(cfg, START, events, n).Some?
    ensures Invariant(cfg, Run(cfg, START, events, n).value)
  {
    if n == 0 {
      StartIsFine(cfg);
    } else {
      hide Step, Invariant;
      RunsKeepInvariant(cfg, events, n - 1);
      StepKeepsInvariant(cfg, Run(cfg, START, events, n - 1).value, events[n - 1]);
    }
  }

  lemma StepKeepsInvariant(cfg: Config, s: State, e: Event)
    requires Invariant(cfg, s) && Step(cfg, s, e).Some?
    ensures Invariant(cfg, Step(cfg, s, e).value)
  {
    hide Step, CodesAreIssued, HoldersAreRight, CodesAreOnce, TokensAreMinted, AnswersAreExact;
    if Idle(e) {
      IdleKeepsInvariant(cfg, s, e);
      IdleKeepsAnswers(cfg, s, e);
    } else {
      CodesAreIssuedKept(cfg, s, e);
      HoldersAreRightKept(cfg, s, e);
      CodesAreOnceKept(cfg, s, e);
      TokensAreMintedKept(cfg, s, e);
      AnswersAreExactKept(cfg, s, e);
    }
  }

  // ---------------------------------------------------------------------------
  // What holds in every run
  // ---------------------------------------------------------------------------

  /** However the redemptions interleave, no code yields two tokens. */
  lemma CodesAreSingleUse(cfg: Config, events: seq<Event>, t: string, u: string)
    requires Run(cfg, START, events, |events|).Some?
    requires var s := Run(cfg, START, events, |events|).value;
      t in s.minted && u in s.minted && s.minted[t].r.code == s.minted[u].r.code
    ensures t == u
  {
    RunsKeepInvariant(cfg, events, |events|);
  }

  /** Every token traces back to one issued code: unexpired when checked, bound to the
      same redirect and client, its challenge met by the verifier, and issued for an
      allowed redirect with an S256 challenge. */
  lemma TokensTraceBack(cfg: Config, events: seq<Event>, t: string)
    requires Run(cfg, START, events, |events|).Some?
    requires t in Run(cfg, START, events, |events|).value.tokens
    ensures var s := Run(cfg, START, events, |events|).value;
      t in s.minted && var g := s.minted[t];
        && s.tokens[t] == g.mintedAt + cfg.ttl
        && g.r.code in s.issued && s.issued[g.r.code] == g.ac && GoodCode(cfg, g.ac)
        && g.checkedAt <= g.ac.expires && g.r.redirectUri == g.ac.redirectUri && g.r.clientId == cfg.clientId
        && cfg.s256(g.r.verifier) == g.ac.challenge
  {
    RunsKeepInvariant(cfg, events, |events|);
  }

  /** A bearer token passes exactly when it had been minted by the look-up and its time
      is not over at the reply; whether expired tokens were swept makes no difference. */
  lemma RepliesAreExact(cfg: Config, events: seq<Event>, i: nat)
    requires Run(cfg, START, events, |events|).Some?
    requires i < |Run(cfg, START, events, |events|).value.answers|
    ensures var s := Run(cfg, START, events, |events|).value; var a := s.answers[i];
      a.ok <==> a.minted && a.token in s.minted && a.at <= s.minted[a.token].mintedAt + cfg.ttl
  {
    RunsKeepInvariant(cfg, events, |events|);
  }

  // ---------------------------------------------------------------------------
  // Sweeping is invisible
  // ---------------------------------------------------------------------------

  /** The first `n` events without the sweeps among them. */
  function NoSweeps(events: seq<Event>, n: nat): seq<Event>
    requires n <= |events|
  {
    if n == 0 then []
    else NoSweeps(events, n - 1) + if events[n - 1].Sweep? then [] else [events[n - 1]]
  }

  /** A look-up that came too late to matter: the token was expired already. */
  predicate SameRequest(now: int, q: Request', q': Request') {
    || q == q'
    || (q.Answering? && q'.Answering? && q.token == q'.token && q.minted == q'.minted
        && q.found == None && q'.found.Some? && now > q'.found.value)
  }

  ghost predicate SameTokens(now: int, tokens: map<string, int>, tokens': map<string, int>) {
    && (forall t :: t in tokens ==> t in tokens' && tokens'[t] == tokens[t])
    && (forall t :: t in tokens' && t !in tokens ==> now > tokens'[t])
  }

  ghost predicate SameRequests(now: int, qs: map<nat, Request'>, qs': map<nat, Request'>) {
    && (forall id :: id in qs <==> id in qs')
    && (forall id :: id in qs ==> SameRequest(now, qs[id], qs'[id]))
  }

  /** The two states differ only in tokens that are expired, and in look-ups of such
      tokens. */
  ghost predicate Unswept(s: State, s': State) {
    && s' == s.(tokens := s'.tokens, requests := s'.requests)
    && SameTokens(s.now, s.tokens, s'.tokens) && SameRequests(s.now, s.requests, s'.requests)
  }

  lemma SweepUnseen(cfg: Config, s: State, s': State)
    requires Unswept(s, s')
    ensures Unswept(Step(cfg, s, Sweep).value, s')
  {
  }

  lemma MovesTogether(now: int, qs: map<nat, Request'>, qs': map<nat, Request'>, id: nat, q: Request', q': Request')
    requires SameRequests(now, qs, qs') && SameRequest(now, q, q')
    ensures SameRequests(now, qs[id := q], qs'[id := q'])
    ensures SameRequests(now, qs - {id}, qs' - {id})
  {
  }

  lemma TimePasses(now: int, later: int, s: State, s': State)
    requires now <= later && SameTokens(now, s.tokens, s'.tokens) && SameRequests(now, s.requests, s'.requests)
    ensures SameTokens(later, s.tokens, s'.tokens) && SameRequests(later, s.requests, s'.requests)
  {
  }

  lemma TokenStoredTogether(now: int, tokens: map<string, int>, tokens': map<string, int>, token: string, until: int)
    requires SameTokens(now, tokens, tokens')
    ensures SameTokens(now, tokens[token := until], tokens'[token := until])
  {
  }

  /** A request that is not about to be answered is the same in both. */
  lemma SameActor(s: State, s': State, id: nat)
    requires Unswept(s, s') && id in s.requests
    ensures id in s'.requests && SameRequest(s.now, s.requests[id], s'.requests[id])
    ensures !s.requests[id].Answering? ==> s'.requests[id] == s.requests[id]
  {
  }

  lemma UnsweptMint(cfg: Config, s: State, s': State, e: Event)
    requires Unswept(s, s') && e.MintToken? && Step(cfg, s, e).Some?
    ensures Step(cfg, s', e).Some? && Unswept(Step(cfg, s, e).value, Step(cfg, s', e).value)
  {
    SameActor(s, s', e.id);
    hide SameTokens, SameRequests;
    MovesTogether(s.now, s.requests, s'.requests, e.id, s.requests[e.id], s.requests[e.id]);
    TokenStoredTogether(s.now, s.tokens, s'.tokens, e.token, s.now + cfg.ttl);
  }

  lemma UnsweptLookUp(cfg: Config, s: State, s': State, e: Event)
    requires Unswept(s, s') && e.LookUp? && Step(cfg, s, e).Some?
    ensures Step(cfg, s', e).Some? && Unswept(Step(cfg, s, e).value, Step(cfg, s', e).value)
  {
    SameActor(s, s', e.id);
    hide SameRequests;
    var t := s.requests[e.id].token;
    MovesTogether(s.now, s.requests, s'.requests, e.id, Answering(t, Lookup(s.tokens, t), t in s.minted),
                  Answering(t, Lookup(s'.tokens, t), t in s.minted));
  }

  lemma UnsweptReply(cfg: Config, s: State, s': State, e: Event)
    requires Unswept(s, s') && e.Reply? && Step(cfg, s, e).Some?
    ensures Step(cfg, s', e).Some? && Unswept(Step(cfg, s, e).value, Step(cfg, s', e).value)
  {
    SameActor(s, s', e.id);
    hide SameTokens, SameRequests;
    MovesTogether(s.now, s.requests, s'.requests, e.id, Asking(""), Asking(""));
  }

  lemma UnsweptOther(cfg: Config, s: State, s': State, e: Event)
    requires Unswept(s, s') && Step(cfg, s, e).Some?
    requires e.IssueCode? || e.TakeCode? || e.CheckCode?
    ensures Step(cfg, s', e).Some? && Unswept(Step(cfg, s, e).value, Step(cfg, s', e).value)
  {
    SameActor(s, s', e.id);
    hide SameTokens, SameRequests, CheckGrant;
    var t := Step(cfg, s, e).value;
    var q := if e.id in t.requests then t.requests[e.id] else Asking("");
    MovesTogether(s.now, s.requests, s'.requests, e.id, q, q);
  }

  lemma UnsweptArrival(cfg: Config, s: State, s': State, e: Event)
    requires Unswept(s, s') && Step(cfg, s, e).Some? && Idle(e)
    ensures Step(cfg, s', e).Some? && Unswept(Step(cfg, s, e).value, Step(cfg, s', e).value)
  {
    assert e.id !in s.requests && e.id !in s'.requests;
    hide SameTokens, SameRequests, Authorize;
    var t := Step(cfg, s, e).value;
    var q := if e.id in t.requests then t.requests[e.id] else Asking("");
    MovesTogether(s.now, s.requests, s'.requests, e.id, q, q);
  }

  lemma UnsweptStep(cfg: Config, s: State, s': State, e: Event)
    requires Unswept(s, s') && !e.Sweep? && Step(cfg, s, e).Some?
    ensures Step(cfg, s', e).Some? && Unswept(Step(cfg, s, e).value, Step(cfg, s', e).value)
  {
    if e.Tick? {
      hide SameTokens, SameRequests;
      TimePasses(s.now, e.to, s, s');
    } else {
      hide *;
      if e.MintToken? { UnsweptMint(cfg, s, s', e); }
      else if e.LookUp? { UnsweptLookUp(cfg, s, s', e); }
      else if e.Reply? { UnsweptReply(cfg, s, s', e); }
      else if e.IssueCode? || e.TakeCode? || e.CheckCode? { UnsweptOther(cfg, s, s', e); }
      else { ArrivalsAreIdle(e); UnsweptArrival(cfg, s, s', e); }
    }
  }

  lemma ArrivalsAreIdle(e: Event)
    ensures Idle(e) <==> e.ArriveAuthorize? || e.ArriveToken? || e.ArriveBearer?
  {
  }

  lemma {:induction false} RunOfPrefix(cfg: Config, events: seq<Event>, more: seq<Event>, n: nat)
    requires n <= |events|
    ensures Run(cfg, START, events + more, n) == Run(cfg, START, events, n)
  {
    hide Step;
    if n > 0 {
      RunOfPrefix(cfg, events, more, n - 1);
      assert (events + more)[n - 1] == events[n - 1];
    }
  }

  /** Leaving out every sweep of a run leaves a run with the same answers, the same
      codes and the same tokens but for expired ones. */
  lemma {:induction false} SweepsAreInvisible(cfg: Config, events: seq<Event>, n: nat)
    requires n <= |events| && Run(cfg, START, events, n).Some?
    ensures var quiet := NoSweeps(events, n);
      && Run(cfg, START, quiet, |quiet|).Some?
      && Unswept(Run(cfg, START, events, n).value, Run(cfg, START, quiet, |quiet|).value)
      && Run(cfg, START, quiet, |quiet|).value.answers == Run(cfg, START, events, n).value.answers
  {
    hide Step, SameTokens, SameRequests;
    if n == 0 {
      StartIsUnswept();
    } else {
      SweepsAreInvisible(cfg, events, n - 1);
      var e, quiet := events[n - 1], NoSweeps(events, n - 1);
      var s, s' := Run(cfg, START, events, n - 1).value, Run(cfg, START, quiet, |quiet|).value;
      if e.Sweep? {
        assert NoSweeps(events, n) == quiet;
        SweepUnseen(cfg, s, s');
      } else {
        UnsweptStep(cfg, s, s', e);
        RunOfPrefix(cfg, quiet, [e], |quiet|);
        assert NoSweeps(events, n) == quiet + [e] && (quiet + [e])[|quiet|] == e;
      }
    }
  }

  lemma StartIsUnswept()
    ensures Unswept(START, START)
  {
  }
}
