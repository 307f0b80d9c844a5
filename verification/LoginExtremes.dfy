/**
 Runs of the login limiter at the edge: as many failures as the bound allows, and a
 decision that pruning changes.
 */
module LoginExtremes {
  import opened Options
  import opened LoginLimiter
  import opened LoginRuns

  const SOMEONE := "k"

  const SOMEONE_ELSE := "l"

  /** `n` failures at time 0. */
  function AtOnce(n: nat): seq<Row> {
    if n == 0 then [] else AtOnce(n - 1) + [Row(SOMEONE, 0)]
  }

  lemma {:induction false} AtOnceCounted(n: nat, since: int)
    ensures |AtOnce(n)| == n && Count(AtOnce(n), SOMEONE, since) == if since < 0 then n else 0
  {
    if n > 0 {
      AtOnceCounted(n - 1, since);
      assert AtOnce(n)[..n - 1] == AtOnce(n - 1);
    }
  }

  lemma {:induction false} AtOncePruned(n: nat, than: int)
    ensures Later(AtOnce(n), than) == if than < 0 then AtOnce(n) else []
  {
    hide Later;
    if n == 0 {
      NoneLater(than);
    } else {
      AtOncePruned(n - 1, than);
      LaterLast(AtOnce(n - 1), Row(SOMEONE, 0), than);
    }
  }

  lemma AtOnceCounts(n: nat)
    ensures |AtOnce(n)| == n && Later(AtOnce(n), -WINDOW) == AtOnce(n) && Later(AtOnce(n), 0) == []
    ensures Count(AtOnce(n), SOMEONE, -WINDOW) == n && Count(AtOnce(n), SOMEONE, -1) == n && Count(AtOnce(n), SOMEONE, 0) == 0
  {
    hide AtOnce, Count, Later;
    AtOnceCounted(n, -WINDOW);
    AtOnceCounted(n, -1);
    AtOnceCounted(n, 0);
    AtOncePruned(n, -WINDOW);
    AtOncePruned(n, 0);
  }

  /** Time 0, `failed` failures on record, the ids in `flying` let through. */
  ghost predicate Stands(s: State, failed: nat, flying: set<nat>) {
    && s.now == 0 && s.table == AtOnce(failed) && s.failures == AtOnce(failed) && s.cutoff == -WINDOW
    && s.attempts.Keys == flying && (forall id :: id in s.attempts ==> s.attempts[id] == Flying(SOMEONE)) && s.waved == map[]
  }

  /** `events` lead from the start to `s`, with a database that always answers. */
  ghost predicate Leads(k: nat, events: seq<Event>, s: State) {
    Run(k, START, events, |events|) == Some(s) && AlwaysUp(events)
  }

  lemma {:induction false} RunOfPrefix(k: nat, events: seq<Event>, more: seq<Event>, n: nat)
    requires n <= |events|
    ensures Run(k, START, events + more, n) == Run(k, START, events, n)
  {
    hide Step;
    if n > 0 {
      RunOfPrefix(k, events, more, n - 1);
      assert (events + more)[n - 1] == events[n - 1];
    }
  }

  lemma OneMore(k: nat, events: seq<Event>, s: State, e: Event)
    requires Leads(k, events, s) && Step(k, s, e).Some? && (e.Decide? ==> e.up)
    ensures Leads(k, events + [e], Step(k, s, e).value)
  {
    hide Step;
    RunOfPrefix(k, events, [e], |events|);
    assert (events + [e])[|events|] == e;
  }

  lemma Asks(k: nat, events: seq<Event>, s: State, id: nat, key: string) returns (more: seq<Event>, t: State)
    requires Leads(k, events, s) && id !in s.attempts && |InFlight(s, key)| < k
    ensures Leads(k, more, t) && t == Move(s, id, Asking(key, s.now))
  {
    hide Leads, InFlight, Decided;
    OneMore(k, events, s, Ask(id, key));
    more, t := events + [Ask(id, key)], Step(k, s, Ask(id, key)).value;
  }

  lemma Decides(k: nat, events: seq<Event>, s: State, id: nat) returns (more: seq<Event>, t: State)
    requires Leads(k, events, s) && id in s.attempts && s.attempts[id].Asking?
    ensures Leads(k, more, t) && t == Decided(s, id, true)
  {
    hide Leads, InFlight, Decided;
    OneMore(k, events, s, Decide(id, true));
    more, t := events + [Decide(id, true)], Step(k, s, Decide(id, true)).value;
  }

  lemma Records(k: nat, events: seq<Event>, s: State, id: nat) returns (more: seq<Event>, t: State)
    requires Leads(k, events, s) && id in s.attempts && s.attempts[id].Flying?
    ensures Leads(k, more, t) && t == Recorded(Leave(s, id), s.attempts[id].key, s.now)
  {
    hide Leads, InFlight, Recorded;
    OneMore(k, events, s, Stamp(id));
    t := Step(k, s, Stamp(id)).value;
    OneMore(k, events + [Stamp(id)], t, Record(id, true));
    more := events + [Stamp(id)] + [Record(id, true)];
    assert t.attempts - {id} == s.attempts - {id};
    t := Step(k, t, Record(id, true)).value;
  }

  lemma Ticks(k: nat, events: seq<Event>, s: State, to: int) returns (more: seq<Event>, t: State)
    requires Leads(k, events, s) && to > s.now
    ensures Leads(k, more, t) && t == s.(now := to)
  {
    hide Leads;
    OneMore(k, events, s, Tick(to));
    more, t := events + [Tick(to)], Step(k, s, Tick(to)).value;
  }

  lemma LetThrough(s: State, failed: nat, flying: set<nat>, id: nat, t: State)
    requires Stands(s, failed, flying) && failed < MAX_FAILURES && id !in flying && t == Move(s, id, Asking(SOMEONE, 0))
    ensures Stands(Decided(t, id, true), failed, flying + {id})
  {
    AtOnceCounts(failed);
    hide AtOnce, Count;
    var u := Decided(t, id, true);
    assert u.attempts == s.attempts[id := Flying(SOMEONE)];
  }

  lemma AllFlying(s: State, failed: nat, flying: set<nat>)
    requires Stands(s, failed, flying)
    ensures InFlight(s, SOMEONE) == flying && s.attempts.Keys == flying && s.now == 0
  {
  }

  lemma Begins(k: nat, events: seq<Event>, s: State, failed: nat, flying: set<nat>, id: nat) returns (more: seq<Event>, t: State)
    requires Leads(k, events, s) && Stands(s, failed, flying) && failed < MAX_FAILURES && id !in flying && |flying| < k
    ensures Leads(k, more, t) && Stands(t, failed, flying + {id})
  {
    hide Leads, Stands, InFlight, Decided;
    AllFlying(s, failed, flying);
    more, t := Asks(k, events, s, id, SOMEONE);
    LetThrough(s, failed, flying, id, t);
    more, t := Decides(k, more, t, id);
  }

  lemma Fails(k: nat, events: seq<Event>, s: State, failed: nat, flying: set<nat>, id: nat) returns (more: seq<Event>, t: State)
    requires Leads(k, events, s) && Stands(s, failed, flying) && id in flying
    ensures Leads(k, more, t) && Stands(t, failed + 1, flying - {id})
  {
    AtOnceCounts(failed);
    assert AtOnce(failed + 1) == AtOnce(failed) + [Row(SOMEONE, 0)];
    hide AtOnce, Count, Later, NotOf, Leads, Step;
    more, t := Records(k, events, s, id);
  }

  lemma NothingYet(k: nat)
    ensures Leads(k, [], START) && Stands(START, 0, {})
  {
    assert AtOnce(0) == [];
  }

  /** One attempt after the other. */
  lemma {:induction false} OneByOne(k: nat, n: nat) returns (events: seq<Event>, s: State)
    requires 0 < k && n <= MAX_FAILURES
    ensures Leads(k, events, s) && Stands(s, n, {})
  {
    hide Leads, Stands;
    if n == 0 {
      events, s := [], START;
      NothingYet(k);
    } else {
      events, s := OneByOne(k, n - 1);
      events, s := Begins(k, events, s, n - 1, {}, 0);
      assert {} + {0} - {0} == {};
      events, s := Fails(k, events, s, n - 1, {} + {0}, 0);
    }
  }

  function Below(n: nat): (r: set<nat>)
    ensures forall i: nat :: i in r <==> i < n
    ensures |r| == n
  {
    if n == 0 then {} else Below(n - 1) + {n - 1}
  }

  /** After four failures, `m` at once. */
  lemma {:induction false} AllBegin(k: nat, m: nat) returns (events: seq<Event>, s: State)
    requires 0 < k && m <= k
    ensures Leads(k, events, s) && Stands(s, 4, Below(m))
  {
    hide Leads, Stands;
    if m == 0 {
      events, s := OneByOne(k, 4);
    } else {
      events, s := AllBegin(k, m - 1);
      events, s := Begins(k, events, s, 4, Below(m - 1), m - 1);
    }
  }

  /** Of `k` at once, all but `left` have failed. */
  lemma {:induction false} AllFail(k: nat, left: nat) returns (events: seq<Event>, s: State)
    requires 0 < k && left <= k
    ensures Leads(k, events, s) && Stands(s, 4 + k - left, Below(left))
    decreases k - left
  {
    hide Leads, Stands;
    if left == k {
      events, s := AllBegin(k, k);
    } else {
      events, s := AllFail(k, left + 1);
      assert Below(left + 1) - {left} == Below(left);
      events, s := Fails(k, events, s, 3 + k - left, Below(left + 1), left);
    }
  }

  /** The bound is met for every `k`: it cannot be stated any lower, and with attempts
      in flight it is more than the five the limiter names. */
  lemma BoundIsMet(k: nat) returns (events: seq<Event>)
    requires 0 < k
    ensures Run(k, START, events, |events|).Some? && AlwaysUp(events)
    ensures var failures := Run(k, START, events, |events|).value.failures;
      Count(failures, SOMEONE, -900) - Count(failures, SOMEONE, 0) == 4 + k
  {
    hide Run;
    var s;
    events, s := AllFail(k, 0);
    AtOnceCounts(4 + k);
  }

  /** Someone else's failure at the end of the window prunes the five of the start. */
  lemma Prunes(k: nat, events: seq<Event>, s: State) returns (more: seq<Event>, t: State)
    requires 0 < k && Leads(k, events, s) && Stands(s, 5, {})
    ensures Leads(k, more, t) && t.now == WINDOW && t.table == [Row(SOMEONE_ELSE, WINDOW)] && t.cutoff == 0
    ensures t.failures == AtOnce(5) + [Row(SOMEONE_ELSE, WINDOW)]
    ensures 0 in t.attempts && t.attempts[0] == Asking(SOMEONE, WINDOW - 1)
  {
    AtOnceCounts(5);
    hide AtOnce, Count, NotOf, Leads, InFlight;
    more, t := Ticks(k, events, s, WINDOW - 1);
    Nobody(t, SOMEONE);
    more, t := Asks(k, more, t, 0, SOMEONE);
    more, t := Ticks(k, more, t, WINDOW);
    more, t := OtherFails(k, more, t);
  }

  lemma Nobody(s: State, key: string)
    requires forall id :: id in s.attempts ==> s.attempts[id].key != key
    ensures InFlight(s, key) == {}
  {
  }

  lemma OtherFails(k: nat, events: seq<Event>, s: State) returns (more: seq<Event>, t: State)
    requires 0 < k && Leads(k, events, s) && s.now == WINDOW && s.table == AtOnce(5) && s.failures == AtOnce(5) && s.cutoff == -WINDOW
    requires s.attempts == map[0 := Asking(SOMEONE, WINDOW - 1)]
    ensures Leads(k, more, t) && t.now == WINDOW && t.table == [Row(SOMEONE_ELSE, WINDOW)] && t.cutoff == 0
    ensures t.failures == AtOnce(5) + [Row(SOMEONE_ELSE, WINDOW)]
    ensures 0 in t.attempts && t.attempts[0] == Asking(SOMEONE, WINDOW - 1)
  {
    AtOnceCounts(5);
    OthersAreNew(s.table);
    assert SOMEONE != SOMEONE_ELSE;
    Nobody(s, SOMEONE_ELSE);
    hide AtOnce, Count, NotOf, Leads, InFlight;
    more, t := Asks(k, events, s, 1, SOMEONE_ELSE);
    more, t := Decides(k, more, t, 1);
    more, t := Records(k, more, t, 1);
  }

  lemma OthersAreNew(rows: seq<Row>)
    requires rows == AtOnce(5)
    ensures Count(rows, SOMEONE_ELSE, 0) == 0
  {
    var n := 0;
    while n < 5
      invariant n <= 5 && Count(AtOnce(n), SOMEONE_ELSE, 0) == 0
    {
      CountLast(AtOnce(n), Row(SOMEONE, 0), SOMEONE_ELSE, 0);
      n := n + 1;
    }
  }

  /** A decision pruning does change: the clock is read with five failures in the
      window, someone else's failure, stamped a second later, prunes them, and the
      count finds none. */
  lemma PruningMayShow(k: nat) returns (events: seq<Event>)
    requires 0 < k
    ensures Run(k, START, events, |events|).Some? && AlwaysUp(events)
    ensures var ds := Run(k, START, events, |events|).value.decisions;
      && ds != []
      && var d := ds[|ds| - 1]; d.allowed && d.atAsk == 5 && d.cutoff == d.asked - 900 + 1
  {
    var s;
    events, s := OneByOne(k, 5);
    events, s := Prunes(k, events, s);
    AtOnceCounts(5);
    var row := Row(SOMEONE_ELSE, WINDOW);
    CountLast(AtOnce(5), row, SOMEONE, -1);
    CountLast([], row, SOMEONE, -1);
    assert [] + [row] == [row] && SOMEONE != SOMEONE_ELSE;
    hide Leads, AtOnce, InFlight;
    events, s := Decides(k, events, s, 0);
    LeadsThere(k, events, s);
  }

  lemma LeadsThere(k: nat, events: seq<Event>, s: State)
    requires Leads(k, events, s)
    ensures Run(k, START, events, |events|) == Some(s) && AlwaysUp(events)
  {
  }
}
