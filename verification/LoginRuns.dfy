/**
 Runs of the login limiter: attempts of many clients interleaved, on a clock that never
 goes back.  Reading the clock and asking the database are different steps, as they are
 in `allow` and `recordFailure`.
 */
module LoginRuns {
  import opened Options
  import opened LoginLimiter

  /** Where an attempt stands: in `allow` after its clock reading, let through, or in
      `recordFailure` after its clock reading. */
  datatype Attempt =
    | Asking(key: string, asked: int)
    | Flying(key: string)
    | Failing(key: string, at: int)

  /** What one decision was based on: the failures in the window before the clock
      reading and before the count, and how far the table had been pruned. */
  datatype Decision = Decision(key: string, asked: int, atAsk: nat, atCount: nat, cutoff: int, allowed: bool)

  /** The clock, the table and the attempts under way; and for the record: every
      failure recorded since its key was last cleared, how many attempts per key went
      through since then because the database did not answer, the time up to which
      rows were pruned, and all decisions the database answered. */
  datatype State = State(now: int, table: seq<Row>, attempts: map<nat, Attempt>,
                         failures: seq<Row>, waved: map<string, nat>, cutoff: int, decisions: seq<Decision>)

  const START := State(0, [], map[], [], map[], -WINDOW, [])

  datatype Event =
    | Tick(to: int)
    | Ask(id: nat, key: string)     // allow reads the clock
    | Decide(id: nat, up: bool)     // allow counts
    | Stamp(id: nat)                // recordFailure reads the clock
    | Record(id: nat, up: bool)     // recordFailure prunes and inserts
    | Succeed(id: nat, up: bool)    // recordSuccess
    | Abandon(id: nat)              // an internal error before the password check

  ghost function InFlight(s: State, key: string): set<nat> {
    set id | id in s.attempts && s.attempts[id].key == key
  }

  function Waved(s: State, key: string): nat {
    if key in s.waved then s.waved[key] else 0
  }

  function Leave(s: State, id: nat): State {
    s.(attempts := s.attempts - {id})
  }

  function Move(s: State, id: nat, a: Attempt): State {
    s.(attempts := s.attempts[id := a])
  }

  /** `allow` asks the database. */
  function Decided(s: State, id: nat, up: bool): State
    requires id in s.attempts && s.attempts[id].Asking?
  {
    var Asking(key, asked) := s.attempts[id];
    if !up then Move(s, id, Flying(key)).(waved := s.waved[key := Waved(s, key) + 1])
    else
      var allowed := Count(s.table, key, asked - WINDOW) < MAX_FAILURES;
      var d := Decision(key, asked, Count(s.failures, key, asked - WINDOW), Count(s.failures, key, s.now - WINDOW), s.cutoff, allowed);
      (if allowed then Move(s, id, Flying(key)) else Leave(s, id)).(decisions := s.decisions + [d])
  }

  /** `recordFailure` writes. */
  function Recorded(s: State, key: string, at: int): State {
    var before := at - WINDOW;
    s.(table := Later(s.table, before) + [Row(key, at)], failures := s.failures + [Row(key, at)],
       cutoff := if before > s.cutoff then before else s.cutoff)
  }

  /** `recordSuccess` writes. */
  function Cleared(s: State, key: string): State {
    s.(table := NotOf(s.table, key), failures := NotOf(s.failures, key), waved := s.waved[key := 0])
  }

  /** One atomic step, with at most `k` attempts of a key under way. */
  ghost function Step(k: nat, s: State, e: Event): Option<State> {
    match e
    case Tick(to) =>
      if to > s.now then Some(s.(now := to)) else None
    case Ask(id, key) =>
      if id in s.attempts || |InFlight(s, key)| >= k then None else Some(Move(s, id, Asking(key, s.now)))
    case Decide(id, up) =>
      if id in s.attempts && s.attempts[id].Asking? then Some(Decided(s, id, up)) else None
    case Stamp(id) =>
      if id in s.attempts && s.attempts[id].Flying? then Some(Move(s, id, Failing(s.attempts[id].key, s.now))) else None
    case Record(id, up) =>
      if id in s.attempts && s.attempts[id].Failing? then
        Some(if up then Recorded(Leave(s, id), s.attempts[id].key, s.attempts[id].at) else Leave(s, id))
      else None
    case Succeed(id, up) =>
      if id in s.attempts && s.attempts[id].Flying? then
        Some(if up then Cleared(Leave(s, id), s.attempts[id].key) else Leave(s, id))
      else None
    case Abandon(id) =>
      if id in s.attempts && s.attempts[id].Flying? then Some(Leave(s, id)) else None
  }

  ghost function Run(k: nat, s: State, events: seq<Event>, n: nat): Option<State>
    requires n <= |events|
  {
    if n == 0 then Some(s)
    else
      match Run(k, s, events, n - 1)
      case None => None
      case Some(t) => Step(k, t, events[n - 1])
  }

  /** The limiter's methods do to its table what the steps say. */
  method Perform(l: Limiter, ghost k: nat, s: State, e: Event) returns (allowed: bool)
    requires Step(k, s, e).Some? && l.rows == s.table
    modifies l
    ensures l.rows == Step(k, s, e).value.table
    ensures e.Decide? ==> (allowed <==> e.id in Step(k, s, e).value.attempts)
  {
    hide Count, Later, NotOf, InFlight, Copies;
    allowed := false;
    match e
    case Decide(id, up) =>
      var retry;
      allowed, retry := l.Allow(s.attempts[id].key, s.attempts[id].asked, up);
    case Record(id, up) =>
      l.RecordFailure(s.attempts[id].key, s.attempts[id].at, up);
    case Succeed(id, up) =>
      l.RecordSuccess(s.attempts[id].key, up);
    case _ =>
  }

  // ---------------------------------------------------------------------------
  // The table tells all that matters
  // ---------------------------------------------------------------------------

  /** The table has every failure it was not pruned of, and none besides. */
  ghost predicate TableTells(s: State) {
    && (forall key, since {:trigger Count(s.table, key, since)} :: Count(s.table, key, since) <= Count(s.failures, key, since))
    && (forall key, since {:trigger Count(s.table, key, since)} :: since >= s.cutoff ==>
          Count(s.table, key, since) == Count(s.failures, key, since))
  }

  predicate NoneAhead(s: State) {
    && s.cutoff <= s.now - WINDOW
    && (forall r :: r in s.failures ==> r.at <= s.now)
    && forall id :: id in s.attempts ==>
         (s.attempts[id].Asking? ==> s.attempts[id].asked <= s.now) && (s.attempts[id].Failing? ==> s.attempts[id].at <= s.now)
  }

  /** Refused only with five failures before the clock reading, allowed only with
      fewer before the count; and exactly by those before the clock reading unless
      later failures have pruned some of them. */
  predicate DecisionIsRight(d: Decision) {
    && (d.atAsk < MAX_FAILURES ==> d.allowed)
    && (d.allowed ==> d.atCount < MAX_FAILURES)
    && (d.cutoff <= d.asked - WINDOW ==> (d.allowed <==> d.atAsk < MAX_FAILURES))
  }

  predicate DecisionsAreRight(s: State) {
    forall i | 0 <= i < |s.decisions| :: DecisionIsRight(s.decisions[i])
  }

  lemma {:induction false} PruningNeverAdds(rows: seq<Row>, than: int, key: string, since: int)
    ensures Count(Later(rows, than), key, since) <= Count(rows, key, since)
  {
    if rows != [] {
      var last, before := rows[|rows| - 1], rows[..|rows| - 1];
      PruningNeverAdds(before, than, key, since);
      CountLast(Later(before, than), last, key, since);
      assert Later(before, than) + [] == Later(before, than);
    }
  }

  lemma RecordedTells(s: State, key: string, at: int)
    requires TableTells(s)
    ensures TableTells(Recorded(s, key, at))
  {
    hide Count, Later;
    var t, row, before := Recorded(s, key, at), Row(key, at), at - WINDOW;
    forall other, since
      ensures Count(t.table, other, since) <= Count(t.failures, other, since)
      ensures since >= t.cutoff ==> Count(t.table, other, since) == Count(t.failures, other, since)
    {
      assert Count(s.table, other, since) <= Count(s.failures, other, since);
      PruningNeverAdds(s.table, before, other, since);
      if since >= t.cutoff { PruningKeepsCounts(s.table, before, other, since); }
      CountLast(Later(s.table, before), row, other, since);
      CountLast(s.failures, row, other, since);
    }
  }

  lemma ClearedTells(s: State, key: string)
    requires TableTells(s)
    ensures TableTells(Cleared(s, key))
  {
    hide Count, NotOf;
    var t := Cleared(s, key);
    forall other, since
      ensures Count(t.table, other, since) <= Count(t.failures, other, since)
      ensures since >= t.cutoff ==> Count(t.table, other, since) == Count(t.failures, other, since)
    {
      assert Count(s.table, other, since) <= Count(s.failures, other, since);
      ClearingCounts(s.table, key, other, since);
      ClearingCounts(s.failures, key, other, since);
    }
  }

  lemma TableTellsKept(k: nat, s: State, e: Event)
    requires TableTells(s) && Step(k, s, e).Some?
    ensures TableTells(Step(k, s, e).value)
  {
    hide Count, Later, NotOf, InFlight, TableTells;
    match e
    case Record(id, up) =>
      SameTable(s, Leave(s, id));
      if up { RecordedTells(Leave(s, id), s.attempts[id].key, s.attempts[id].at); }
    case Succeed(id, up) =>
      SameTable(s, Leave(s, id));
      if up { ClearedTells(Leave(s, id), s.attempts[id].key); }
    case _ => SameTable(s, Step(k, s, e).value);
  }

  lemma SameTable(s: State, t: State)
    requires TableTells(s) && t.table == s.table && t.failures == s.failures && t.cutoff == s.cutoff
    ensures TableTells(t)
  {
  }

  lemma {:induction false} NotOfIsPart(rows: seq<Row>, key: string, r: Row)
    requires r in NotOf(rows, key)
    ensures r in rows
  {
    if r != rows[|rows| - 1] { NotOfIsPart(rows[..|rows| - 1], key, r); }
  }

  lemma NoneAheadKept(k: nat, s: State, e: Event)
    requires NoneAhead(s) && Step(k, s, e).Some?
    ensures NoneAhead(Step(k, s, e).value)
  {
    hide Count, Later, NotOf, InFlight;
    if e.Succeed? && e.up {
      forall r | r in NotOf(s.failures, s.attempts[e.id].key) ensures r.at <= s.now {
        NotOfIsPart(s.failures, s.attempts[e.id].key, r);
      }
    }
  }

  lemma DecisionsAreRightKept(k: nat, s: State, e: Event)
    requires TableTells(s) && NoneAhead(s) && DecisionsAreRight(s) && Step(k, s, e).Some?
    ensures DecisionsAreRight(Step(k, s, e).value)
  {
    hide Count, Later, NotOf, InFlight;
    if e.Decide? && e.up {
      var Asking(key, asked) := s.attempts[e.id];
      CountShrinks(s.table, key, asked - WINDOW, s.now - WINDOW);
      assert Count(s.table, key, s.now - WINDOW) == Count(s.failures, key, s.now - WINDOW);
      assert Count(s.table, key, asked - WINDOW) <= Count(s.failures, key, asked - WINDOW);
    }
  }

  // ---------------------------------------------------------------------------
  // The bound
  // ---------------------------------------------------------------------------

  /** Failures of `key` in the window that starts after `w`. */
  function InWindow(rows: seq<Row>, key: string, w: int): int {
    Count(rows, key, w) - Count(rows, key, w + WINDOW)
  }

  /** An attempt that may still be recorded as a failure in that window. */
  predicate MayFall(now: int, a: Attempt, w: int) {
    (a.Flying? && now <= w + WINDOW) || (a.Failing? && w < a.at <= w + WINDOW)
  }

  ghost function Pending(s: State, key: string, w: int): set<nat> {
    set id | id in s.attempts && s.attempts[id].key == key && MayFall(s.now, s.attempts[id], w)
  }

  function Limit(k: nat, s: State, key: string): nat {
    MAX_FAILURES - 1 + k + Waved(s, key)
  }

  /** No window has too many failures, even if all that may still fall into it do. */
  ghost predicate Bounded(k: nat, s: State) {
    && (forall key {:trigger InFlight(s, key)} :: |InFlight(s, key)| <= k)
    && forall key, w {:trigger Pending(s, key, w)} :: InWindow(s.failures, key, w) + |Pending(s, key, w)| <= Limit(k, s, key)
  }

  ghost predicate Invariant(k: nat, s: State) {
    TableTells(s) && NoneAhead(s) && DecisionsAreRight(s) && Bounded(k, s)
  }

  lemma Fewer<T>(a: set<T>, b: set<T>)
    requires a <= b
    ensures |a| <= |b|
  {
    if a != b {
      assert b == a + (b - a);
    }
  }

  lemma FewerBut<T>(a: set<T>, b: set<T>, x: T)
    requires a <= b && x in b && x !in a
    ensures |a| < |b|
  {
    Fewer(a, b - {x});
  }

  /** What the event leaves of the attempts besides its own. */
  lemma Others(k: nat, s: State, e: Event, id: nat)
    requires Step(k, s, e).Some? && (e.Tick? || id != e.id)
    ensures var t := Step(k, s, e).value;
      && t.now >= s.now && (id in t.attempts <==> id in s.attempts)
      && (id in s.attempts ==> t.attempts[id] == s.attempts[id])
  {
    hide Count, Later, NotOf, InFlight;
  }

  /** Only `Ask` adds to the attempts of a key, and only while there is room. */
  lemma FlightsKept(k: nat, s: State, e: Event, key: string)
    requires Step(k, s, e).Some? && |InFlight(s, key)| <= k
    ensures |InFlight(Step(k, s, e).value, key)| <= k
  {
    hide Count, Later, NotOf;
    var t := Step(k, s, e).value;
    var before, after := InFlight(s, key), InFlight(t, key);
    forall id | id in after && (e.Tick? || id != e.id) ensures id in before { Others(k, s, e, id); }
    if e.Ask? && e.key == key {
      assert after <= before + {e.id};
      Fewer(after, before + {e.id});
    } else {
      Fewer(after, before);
    }
  }

  /** Which windows an attempt may fall into is settled step by step. */
  lemma PendingKept(k: nat, s: State, e: Event, key: string, w: int)
    requires Step(k, s, e).Some? && !e.Decide?
    ensures Pending(Step(k, s, e).value, key, w) <= Pending(s, key, w)
  {
    hide Count, Later, NotOf, InFlight;
    var t := Step(k, s, e).value;
    forall id | id in Pending(t, key, w) ensures id in Pending(s, key, w) {
      if e.Tick? || id != e.id { Others(k, s, e, id); }
    }
  }

  /** Steps that record nothing, clear nothing and decide nothing. */
  lemma BoundedElsewhere(k: nat, s: State, e: Event)
    requires Bounded(k, s) && Step(k, s, e).Some?
    requires Step(k, s, e).value.failures == s.failures && !e.Decide? && Step(k, s, e).value.waved == s.waved
    ensures Bounded(k, Step(k, s, e).value)
  {
    var t := Step(k, s, e).value;
    hide Step, InFlight, Pending;
    forall key ensures |InFlight(t, key)| <= k { FlightsKept(k, s, e, key); }
    forall key, w ensures InWindow(t.failures, key, w) + |Pending(t, key, w)| <= Limit(k, t, key) {
      PendingKept(k, s, e, key, w);
      Fewer(Pending(t, key, w), Pending(s, key, w));
    }
  }

  /** A recorded failure was pending in exactly the windows it falls into. */
  lemma RecordFalls(k: nat, s: State, id: nat, key: string, w: int)
    requires id in s.attempts && s.attempts[id].Failing?
    ensures var t := Step(k, s, Record(id, true)).value;
      InWindow(t.failures, key, w) + |Pending(t, key, w)| <= InWindow(s.failures, key, w) + |Pending(s, key, w)|
  {
    var t, row := Step(k, s, Record(id, true)).value, Row(s.attempts[id].key, s.attempts[id].at);
    PendingKept(k, s, Record(id, true), key, w);
    hide Count, Later, NotOf, InFlight;
    CountLast(s.failures, row, key, w);
    CountLast(s.failures, row, key, w + WINDOW);
    if id in Pending(s, key, w) {
      FewerBut(Pending(t, key, w), Pending(s, key, w), id);
    } else {
      Fewer(Pending(t, key, w), Pending(s, key, w));
    }
  }

  lemma BoundedOnRecord(k: nat, s: State, id: nat)
    requires Bounded(k, s) && id in s.attempts && s.attempts[id].Failing?
    ensures Bounded(k, Step(k, s, Record(id, true)).value)
  {
    var e := Record(id, true);
    var t := Step(k, s, e).value;
    assert t.waved == s.waved;
    hide Step, InFlight, Pending, InWindow;
    forall key ensures |InFlight(t, key)| <= k { FlightsKept(k, s, e, key); }
    forall key, w ensures InWindow(t.failures, key, w) + |Pending(t, key, w)| <= Limit(k, t, key) {
      RecordFalls(k, s, id, key, w);
    }
  }

  lemma BoundedOnSucceed(k: nat, s: State, id: nat)
    requires Bounded(k, s) && id in s.attempts && s.attempts[id].Flying?
    ensures Bounded(k, Step(k, s, Succeed(id, true)).value)
  {
    var e, own := Succeed(id, true), s.attempts[id].key;
    var t := Step(k, s, e).value;
    assert t.failures == NotOf(s.failures, own) && t.waved == s.waved[own := 0];
    hide Step, Count, NotOf;
    forall key ensures |InFlight(t, key)| <= k { FlightsKept(k, s, e, key); }
    forall key, w ensures InWindow(t.failures, key, w) + |Pending(t, key, w)| <= Limit(k, t, key) {
      PendingKept(k, s, e, key, w);
      Fewer(Pending(t, key, w), Pending(s, key, w));
      Fewer(Pending(t, key, w), InFlight(t, key));
      FlightsKept(k, s, e, key);
      ClearingCounts(s.failures, own, key, w);
      ClearingCounts(s.failures, own, key, w + WINDOW);
    }
  }

  /** Who is pending after a decision. */
  lemma DecidedPending(s: State, id: nat, up: bool, key: string, w: int)
    requires id in s.attempts && s.attempts[id].Asking?
    ensures var t, own := Decided(s, id, up), s.attempts[id].key;
      && Pending(t, key, w) <= Pending(s, key, w) + {id}
      && (id in Pending(t, key, w) ==> key == own && id in t.attempts && s.now <= w + WINDOW)
      && (key == own ==> |Pending(s, key, w)| < |InFlight(s, key)|)
  {
    hide Count;
    var t, own := Decided(s, id, up), s.attempts[id].key;
    if key == own {
      assert id in InFlight(s, key) && id !in Pending(s, key, w);
      FewerBut(Pending(s, key, w), InFlight(s, key), id);
    }
  }

  /** Whoever is let through leaves room for all under way. */
  lemma RoomForAll(s: State, id: nat, w: int)
    requires TableTells(s) && NoneAhead(s) && id in s.attempts && s.attempts[id].Asking? && w >= s.now - WINDOW
    requires Count(s.table, s.attempts[id].key, s.attempts[id].asked - WINDOW) < MAX_FAILURES
    ensures InWindow(s.failures, s.attempts[id].key, w) <= MAX_FAILURES - 1
  {
    hide Count;
    var Asking(key, asked) := s.attempts[id];
    CountShrinks(s.table, key, asked - WINDOW, s.now - WINDOW);
    CountShrinks(s.failures, key, s.now - WINDOW, w);
    assert Count(s.table, key, s.now - WINDOW) == Count(s.failures, key, s.now - WINDOW);
  }

  lemma DecidedWithin(k: nat, s: State, id: nat, up: bool, key: string, w: int)
    requires TableTells(s) && NoneAhead(s) && Bounded(k, s) && id in s.attempts && s.attempts[id].Asking?
    ensures var t := Decided(s, id, up);
      InWindow(t.failures, key, w) + |Pending(t, key, w)| <= Limit(k, t, key)
  {
    var t := Decided(s, id, up);
    DecidedPending(s, id, up, key, w);
    var own := s.attempts[id].key;
    assert t.failures == s.failures && (up ==> t.waved == s.waved) && (!up ==> t.waved == s.waved[own := Waved(s, own) + 1]);
    assert up && id in t.attempts ==> Count(s.table, own, s.attempts[id].asked - WINDOW) < MAX_FAILURES;
    hide Count, Pending, InFlight, Decided, TableTells, InWindow;
    assert InWindow(s.failures, key, w) + |Pending(s, key, w)| <= Limit(k, s, key);
    if id in Pending(t, key, w) {
      Fewer(Pending(t, key, w), Pending(s, key, w) + {id});
      if up { RoomForAll(s, id, w); }
    } else {
      Fewer(Pending(t, key, w), Pending(s, key, w));
    }
  }

  lemma BoundedOnDecide(k: nat, s: State, id: nat, up: bool)
    requires TableTells(s) && NoneAhead(s) && Bounded(k, s) && id in s.attempts && s.attempts[id].Asking?
    ensures Bounded(k, Decided(s, id, up))
  {
    var t := Decided(s, id, up);
    assert Step(k, s, Decide(id, up)) == Some(t);
    hide Step, Decided, Count, InFlight, Pending, TableTells, InWindow;
    forall key ensures |InFlight(t, key)| <= k { FlightsKept(k, s, Decide(id, up), key); }
    forall key, w ensures InWindow(t.failures, key, w) + |Pending(t, key, w)| <= Limit(k, t, key) {
      DecidedWithin(k, s, id, up, key, w);
    }
  }

  lemma BoundedKept(k: nat, s: State, e: Event)
    requires TableTells(s) && NoneAhead(s) && Bounded(k, s) && Step(k, s, e).Some?
    ensures Bounded(k, Step(k, s, e).value)
  {
    hide Bounded, TableTells, NoneAhead, Count, Later, NotOf, InFlight;
    if e.Record? && e.up { BoundedOnRecord(k, s, e.id); }
    else if e.Succeed? && e.up { BoundedOnSucceed(k, s, e.id); }
    else if e.Decide? { BoundedOnDecide(k, s, e.id, e.up); }
    else { BoundedElsewhere(k, s, e); }
  }

  lemma StepKeepsInvariant(k: nat, s: State, e: Event)
    requires Invariant(k, s) && Step(k, s, e).Some?
    ensures Invariant(k, Step(k, s, e).value)
  {
    hide Step, TableTells, NoneAhead, DecisionsAreRight, Bounded;
    TableTellsKept(k, s, e);
    NoneAheadKept(k, s, e);
    DecisionsAreRightKept(k, s, e);
    BoundedKept(k, s, e);
  }

  lemma StartIsFine(k: nat)
    ensures Invariant(k, START)
  {
    forall key, w ensures InFlight(START, key) == {} && Pending(START, key, w) == {} {}
  }

  lemma {:induction false} RunsKeepInvariant(k: nat, events: seq<Event>, n: nat)
    requires n <= |events| && Run(k, START, events, n).Some?
    ensures Invariant(k, Run(k, START, events, n).value)
  {
    hide Step, Invariant;
    if n == 0 {
      StartIsFine(k);
    } else {
      RunsKeepInvariant(k, events, n - 1);
      StepKeepsInvariant(k, Run(k, START, events, n - 1).value, events[n - 1]);
    }
  }

  /** With at most `k` attempts of a key under way, the failures recorded since the key
      was last cleared number at most 4 + `k` in any 15 minutes, plus one for every
      attempt since then that went through because the database did not answer. */
  lemma FailuresAreBounded(k: nat, events: seq<Event>, key: string, w: int)
    requires Run(k, START, events, |events|).Some?
    ensures var s := Run(k, START, events, |events|).value;
      Count(s.failures, key, w) - Count(s.failures, key, w + 900) <= 4 + k + Waved(s, key)
  {
    hide Step, Run, TableTells, Count;
    RunsKeepInvariant(k, events, |events|);
    assert |Pending(Run(k, START, events, |events|).value, key, w)| >= 0;
  }

  predicate AlwaysUp(events: seq<Event>) {
    forall e :: e in events && e.Decide? ==> e.up
  }

  lemma {:induction false} NoneWaved(k: nat, events: seq<Event>, n: nat, key: string)
    requires n <= |events| && Run(k, START, events, n).Some? && AlwaysUp(events)
    ensures Waved(Run(k, START, events, n).value, key) == 0
  {
    if n > 0 {
      NoneWaved(k, events, n - 1, key);
      hide Count, Later, NotOf, InFlight, Run;
      assert events[n - 1] in events;
    }
  }

  /** One attempt at a time and a database that answers: five failures at most. */
  lemma SequentialBound(events: seq<Event>, key: string, w: int)
    requires Run(1, START, events, |events|).Some? && AlwaysUp(events)
    ensures var failures := Run(1, START, events, |events|).value.failures;
      Count(failures, key, w) - Count(failures, key, w + 900) <= 5
  {
    hide Run, Step, Waved;
    FailuresAreBounded(1, events, key, w);
    NoneWaved(1, events, |events|, key);
  }

  /** What pruning can do to a decision: refused only with five failures in the 15
      minutes before the clock was read, allowed only with fewer in those before the
      count.  When no failure stamped later has been recorded in between, pruning does
      nothing. */
  lemma PruningIsInvisible(k: nat, events: seq<Event>, i: nat)
    requires Run(k, START, events, |events|).Some?
    requires i < |Run(k, START, events, |events|).value.decisions|
    ensures var d := Run(k, START, events, |events|).value.decisions[i];
      && (d.cutoff <= d.asked - 900 ==> (d.allowed <==> d.atAsk < 5))
      && (!d.allowed ==> d.atAsk >= 5) && (d.allowed ==> d.atCount < 5)
  {
    hide Step, Run;
    RunsKeepInvariant(k, events, |events|);
    assert DecisionIsRight(Run(k, START, events, |events|).value.decisions[i]);
  }
}
