/**
 The sliding-window login limiter (`login_ratelimit.go`, `login_failures.go`): its
 store, its decisions, and what any number of interleaved attempts can record.
 Times are whole seconds.
 */
module LoginLimiter {
  import opened Options

  const MAX_FAILURES := 5
  const WINDOW := 900

  datatype Row = Row(key: string, at: int)

  // ---------------------------------------------------------------------------
  // The table of failures
  // ---------------------------------------------------------------------------

  /** Rows of `key` later than `since`. */
  function Count(rows: seq<Row>, key: string, since: int): nat {
    if rows == [] then 0
    else
      var last := rows[|rows| - 1];
      Count(rows[..|rows| - 1], key, since) + if last.key == key && last.at > since then 1 else 0
  }

  /** The earliest of them. */
  function Oldest(rows: seq<Row>, key: string, since: int): int {
    if rows == [] then 0
    else
      var last, before := rows[|rows| - 1], rows[..|rows| - 1];
      if last.key == key && last.at > since && (Count(before, key, since) == 0 || last.at < Oldest(before, key, since))
      then last.at
      else Oldest(before, key, since)
  }

  function Later(rows: seq<Row>, than: int): seq<Row> {
    if rows == [] then []
    else
      var last := rows[|rows| - 1];
      Later(rows[..|rows| - 1], than) + if last.at > than then [last] else []
  }

  function NotOf(rows: seq<Row>, key: string): seq<Row> {
    if rows == [] then []
    else
      var last := rows[|rows| - 1];
      NotOf(rows[..|rows| - 1], key) + if last.key != key then [last] else []
  }

  lemma CountLast(rows: seq<Row>, row: Row, key: string, since: int)
    ensures Count(rows + [row], key, since) == Count(rows, key, since) + if row.key == key && row.at > since then 1 else 0
  {
    assert (rows + [row])[..|rows|] == rows;
  }

  lemma {:induction false} PruningKeepsCounts(rows: seq<Row>, than: int, key: string, since: int)
    requires than <= since
    ensures Count(Later(rows, than), key, since) == Count(rows, key, since)
  {
    if rows != [] {
      var last, before := rows[|rows| - 1], rows[..|rows| - 1];
      PruningKeepsCounts(before, than, key, since);
      CountLast(Later(before, than), last, key, since);
      assert Later(before, than) + [] == Later(before, than);
    }
  }

  lemma NotOfLast(rows: seq<Row>, row: Row, key: string)
    ensures NotOf(rows + [row], key) == if row.key != key then NotOf(rows, key) + [row] else NotOf(rows, key)
  {
    assert (rows + [row])[..|rows|] == rows;
  }

  lemma NoneOf(cleared: string, key: string, since: int)
    ensures NotOf([], cleared) == [] && Count([], key, since) == 0
  {
  }

  lemma {:induction false} ClearingCounts(rows: seq<Row>, cleared: string, key: string, since: int)
    ensures Count(NotOf(rows, cleared), key, since) == if key == cleared then 0 else Count(rows, key, since)
  {
    hide NotOf, Count;
    if rows == [] {
      NoneOf(cleared, key, since);
    } else {
      var last, before := rows[|rows| - 1], rows[..|rows| - 1];
      ClearingCounts(before, cleared, key, since);
      CountLast(NotOf(before, cleared), last, key, since);
      CountLast(before, last, key, since);
      assert rows == before + [last];
      NotOfLast(before, last, cleared);
    }
  }

  lemma {:induction false} CountShrinks(rows: seq<Row>, key: string, since: int, later: int)
    requires since <= later
    ensures Count(rows, key, later) <= Count(rows, key, since)
  {
    if rows != [] { CountShrinks(rows[..|rows| - 1], key, since, later); }
  }

  lemma {:induction false} OldestIsOldest(rows: seq<Row>, key: string, since: int)
    requires Count(rows, key, since) > 0
    ensures Oldest(rows, key, since) > since && Row(key, Oldest(rows, key, since)) in rows
    ensures forall r :: r in rows && r.key == key && r.at > since ==> Oldest(rows, key, since) <= r.at
  {
    var last, before := rows[|rows| - 1], rows[..|rows| - 1];
    if Count(before, key, since) > 0 {
      OldestIsOldest(before, key, since);
    } else {
      NoneCounted(before, key, since);
    }
    forall r | r in rows && r.key == key && r.at > since ensures Oldest(rows, key, since) <= r.at {
      assert r in before || r == last;
    }
  }

  lemma {:induction false} NoneCounted(rows: seq<Row>, key: string, since: int)
    requires Count(rows, key, since) == 0
    ensures forall r :: r in rows && r.key == key ==> r.at <= since
  {
    if rows != [] {
      NoneCounted(rows[..|rows| - 1], key, since);
      forall r | r in rows && r.key == key ensures r.at <= since { assert r in rows[..|rows| - 1] || r == rows[|rows| - 1]; }
    }
  }

  lemma {:induction false} FewerWithoutOldest(rows: seq<Row>, key: string, since: int, r: Row)
    requires r in rows && r.key == key && r.at > since
    ensures Count(rows, key, r.at) < Count(rows, key, since)
  {
    var last, before := rows[|rows| - 1], rows[..|rows| - 1];
    if last == r {
      CountShrinks(before, key, since, r.at);
    } else {
      assert r in before;
      FewerWithoutOldest(before, key, since, r);
    }
  }

  /** How often a row is in the table. */
  ghost function Copies(rows: seq<Row>, r: Row): nat {
    multiset(rows)[r]
  }

  ghost function Places(rows: seq<Row>, key: string, since: int): set<nat> {
    set i: nat | i < |rows| && rows[i].key == key && rows[i].at > since
  }

  lemma PlacesLast(rows: seq<Row>, row: Row, key: string, since: int)
    ensures Places(rows + [row], key, since) == Places(rows, key, since) + if row.key == key && row.at > since then {|rows|} else {}
  {
  }

  /** A count is the number of places of such rows. */
  lemma {:induction false} CountIsPlaces(rows: seq<Row>, key: string, since: int)
    ensures Count(rows, key, since) == |Places(rows, key, since)|
  {
    if rows == [] {
      assert Places(rows, key, since) == {};
    } else {
      var last, before := rows[|rows| - 1], rows[..|rows| - 1];
      assert rows == before + [last];
      CountIsPlaces(before, key, since);
      PlacesLast(before, last, key, since);
      assert |before| !in Places(before, key, since);
      hide Places;
    }
  }

  lemma LaterLast(rows: seq<Row>, row: Row, than: int)
    ensures Later(rows + [row], than) == Later(rows, than) + if row.at > than then [row] else []
  {
    assert (rows + [row])[..|rows|] == rows;
  }

  lemma NoneLater(than: int)
    ensures Later([], than) == []
  {
  }

  lemma CopiesLast(rows: seq<Row>, row: Row, r: Row)
    ensures Copies(rows + [row], r) == Copies(rows, r) + if r == row then 1 else 0
    ensures Copies([], r) == 0
  {
  }

  lemma {:induction false} LaterOccurs(rows: seq<Row>, than: int, r: Row)
    ensures Copies(Later(rows, than), r) == if r.at > than then Copies(rows, r) else 0
  {
    hide Later, Copies;
    CopiesLast([], r, r);
    if rows == [] {
      NoneLater(than);
    } else {
      var last, before := rows[|rows| - 1], rows[..|rows| - 1];
      assert rows == before + [last];
      LaterOccurs(before, than, r);
      LaterLast(before, last, than);
      assert Later(before, than) + [] == Later(before, than);
      CopiesLast(before, last, r);
      CopiesLast(Later(before, than), last, r);
    }
  }

  lemma {:induction false} NotOfOccurs(rows: seq<Row>, key: string, r: Row)
    ensures Copies(NotOf(rows, key), r) == if r.key == key then 0 else Copies(rows, r)
  {
    hide NotOf, Copies, Count;
    CopiesLast([], r, r);
    if rows == [] {
      NoneOf(key, key, 0);
    } else {
      var last, before := rows[|rows| - 1], rows[..|rows| - 1];
      assert rows == before + [last];
      NotOfOccurs(before, key, r);
      NotOfLast(before, last, key);
      CopiesLast(before, last, r);
      CopiesLast(NotOf(before, key), last, r);
    }
  }

  // ---------------------------------------------------------------------------
  // The limiter
  // ---------------------------------------------------------------------------

  /** The table behind the limiter; every method is one statement or transaction.
      `up` says whether the database answered. */
  class Limiter {
    var rows: seq<Row>

    constructor ()
      ensures rows == []
    {
      rows := [];
    }

    /** Whether an attempt may go on, and if not, after how long to try again. */
    method Allow(key: string, now: int, up: bool) returns (ok: bool, retry: int)
      ensures ok <==> !up || Count(rows, key, now - 900) < 5
      ensures ok ==> retry == 0
      ensures !ok ==> 0 < retry && Count(rows, key, now + retry - 900) < Count(rows, key, now - 900)
      ensures !ok ==> forall since :: now - 900 <= since < now + retry - 900 ==>
                Count(rows, key, since) == Count(rows, key, now - 900)
    {
      if !up {
        return true, 0;
      }
      var count, oldest := Count(rows, key, now - WINDOW), Oldest(rows, key, now - WINDOW);
      if count < MAX_FAILURES {
        return true, 0;
      }
      OldestIsOldest(rows, key, now - WINDOW);
      FewerWithoutOldest(rows, key, now - WINDOW, Row(key, oldest));
      retry := oldest + WINDOW - now;
      if retry < 0 {
        retry := 0;
      }
      forall since | now - WINDOW <= since < now + retry - WINDOW
        ensures Count(rows, key, since) == Count(rows, key, now - WINDOW)
      {
        SameUntilOldest(rows, key, now - WINDOW, since, oldest);
      }
      ok := false;
    }

    method RecordFailure(key: string, now: int, up: bool)
      modifies this
      // all rows of the last 15 minutes stay, whosever they are, and one is new
      ensures up ==> forall r :: r != Row(key, now) ==> Copies(rows, r) == if r.at > now - 900 then Copies(old(rows), r) else 0
      ensures up ==> Copies(rows, Row(key, now)) == Copies(old(rows), Row(key, now)) + 1
      ensures rows == if up then Later(old(rows), now - WINDOW) + [Row(key, now)] else old(rows)
    {
      forall r { LaterOccurs(rows, now - WINDOW, r); }
      if !up {
        return;
      }
      rows := Later(rows, now - WINDOW);
      rows := rows + [Row(key, now)];
    }

    method RecordSuccess(key: string, up: bool)
      modifies this
      ensures up ==> forall r :: Copies(rows, r) == if r.key == key then 0 else Copies(old(rows), r)
      ensures rows == if up then NotOf(old(rows), key) else old(rows)
    {
      forall r { NotOfOccurs(rows, key, r); }
      if up {
        rows := NotOf(rows, key);
      }
    }
  }

  lemma {:induction false} SameUntilOldest(rows: seq<Row>, key: string, since: int, later: int, oldest: int)
    requires since <= later < oldest
    requires forall r :: r in rows && r.key == key && r.at > since ==> oldest <= r.at
    ensures Count(rows, key, later) == Count(rows, key, since)
  {
    if rows != [] {
      assert rows[|rows| - 1] in rows;
      SameUntilOldest(rows[..|rows| - 1], key, since, later, oldest);
    }
  }
}
