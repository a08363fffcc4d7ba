/** The per-client fixed-window request counter that both handlers keep in a
    process-wide table keyed by client address. */
module RateLimit {

  /** Length of a window in milliseconds (one hour). */
  const RATE_LIMIT_DURATION: int := 60 * 60 * 1000
  /** Requests admitted per client within one window. */
  const MAX_REQUESTS: int := 100

  /** One table entry: requests counted so far, and when the window opened. */
  datatype Rec = Rec(count: int, timestamp: int)

  /** The window of `r` is still open at time `now`. Time is not assumed to be
      monotonic: a clock that went back yields a negative difference, which
      counts as still open. */
  predicate Open(r: Rec, now: int)
  {
    now - r.timestamp < RATE_LIMIT_DURATION
  }

  /** Every stored count lies in 1..MAX_REQUESTS. */
  ghost predicate Bounded(t: map<string, Rec>)
  {
    forall k :: k in t ==> 1 <= t[k].count <= MAX_REQUESTS
  }

  /** Result of one admission decision: whether the request may proceed, and
      the table afterwards. */
  datatype Admission = Admission(ok: bool, table: map<string, Rec>)

  /** Admission of one request from `key` at time `now`. */
  function Step(t: map<string, Rec>, key: string, now: int): (a: Admission)
    // a request is refused exactly when its window is open and already full
    ensures !a.ok <==> key in t && Open(t[key], now) && t[key].count >= MAX_REQUESTS
    // a refusal changes nothing
    ensures !a.ok ==> a.table == t
    // the requesting key always has an entry afterwards
    ensures a.table.Keys == t.Keys + {key}
    // admitted into an open window: one more request, same window start
    ensures a.ok && key in t && Open(t[key], now) ==>
              a.table[key] == Rec(t[key].count + 1, t[key].timestamp)
    // admitted as an unseen key or after the window elapsed: a fresh window at now
    ensures a.ok && !(key in t && Open(t[key], now)) ==> a.table[key] == Rec(1, now)
    // only the requesting key's entry can change
    ensures forall k :: k in t && k != key ==> a.table[k] == t[k]
    ensures Bounded(t) ==> Bounded(a.table)
  {
    if key !in t then
      Admission(true, t[key := Rec(1, now)])
    else if Open(t[key], now) then
      if t[key].count >= MAX_REQUESTS then Admission(false, t)
      else Admission(true, t[key := t[key].(count := t[key].count + 1)])
    else
      Admission(true, t[key := Rec(1, now)])
  }

  /** One request as the rate limiter sees it. */
  datatype Request = Request(key: string, now: int)

  /** The decisions taken for a sequence of requests served one after another,
      and the table they leave behind. */
  datatype Trace = Trace(admitted: seq<bool>, table: map<string, Rec>)

  function Run(t: map<string, Rec>, reqs: seq<Request>): (tr: Trace)
    decreases |reqs|
  {
    if reqs == [] then Trace([], t)
    else
      var a := Step(t, reqs[0].key, reqs[0].now);
      var rest := Run(a.table, reqs[1..]);
      Trace([a.ok] + rest.admitted, rest.table)
  }

  /** `n` requests from `key`, all at the same instant `now`. */
  function Repeat(key: string, now: int, n: nat): (reqs: seq<Request>)
  {
    seq(n, _ => Request(key, now))
  }

  /** Across any sequence of requests, every stored count stays in 1..MAX_REQUESTS. */
  lemma {:induction false} RunKeepsBounded(t: map<string, Rec>, reqs: seq<Request>)
    requires Bounded(t)
    ensures Bounded(Run(t, reqs).table)
    ensures |Run(t, reqs).admitted| == |reqs|
    decreases |reqs|
  {
    if reqs != [] {
      RunKeepsBounded(Step(t, reqs[0].key, reqs[0].now).table, reqs[1..]);
    }
  }

  /** A client that sends no request in the sequence keeps its entry (or its
      absence) exactly as it was. */
  lemma {:induction false} RunLeavesOthers(t: map<string, Rec>, reqs: seq<Request>, k: string)
    requires forall j :: 0 <= j < |reqs| ==> reqs[j].key != k
    ensures k in Run(t, reqs).table <==> k in t
    ensures k in t ==> Run(t, reqs).table[k] == t[k]
    decreases |reqs|
  {
    if reqs != [] {
      RunLeavesOthers(Step(t, reqs[0].key, reqs[0].now).table, reqs[1..], k);
    }
  }

  /** A burst at a fixed instant into an open window holding `count` requests:
      the i-th extra request is admitted exactly while `count + i` is still
      under the limit, and the count stops at the limit. */
  lemma {:induction false} BurstIntoOpenWindow(t: map<string, Rec>, key: string, now: int, n: nat)
    requires key in t && Open(t[key], now) && 1 <= t[key].count <= MAX_REQUESTS
    ensures var tr := Run(t, Repeat(key, now, n));
      && |tr.admitted| == n
      && (forall i :: 0 <= i < n ==> tr.admitted[i] == (t[key].count + i < MAX_REQUESTS))
      && key in tr.table
      && tr.table[key] == Rec(if t[key].count + n <= MAX_REQUESTS then t[key].count + n
                              else MAX_REQUESTS, t[key].timestamp)
    decreases n
  {
    if n > 0 {
      var reqs := Repeat(key, now, n);
      assert reqs[1..] == Repeat(key, now, n - 1);
      var a := Step(t, key, now);
      if t[key].count >= MAX_REQUESTS {
        assert a.table == t;
      } else {
        assert a.table[key] == Rec(t[key].count + 1, t[key].timestamp);
      }
      BurstIntoOpenWindow(a.table, key, now, n - 1);
      var rest := Run(a.table, reqs[1..]);
      assert Run(t, reqs).admitted == [a.ok] + rest.admitted;
    }
  }

  /** From a table that has never seen `key`, with the clock held fixed, the
      first MAX_REQUESTS requests are admitted and every later one refused. */
  lemma FreshBurst(t: map<string, Rec>, key: string, now: int, n: nat)
    requires key !in t
    ensures var tr := Run(t, Repeat(key, now, n));
      && |tr.admitted| == n
      && forall i :: 0 <= i < n ==> tr.admitted[i] == (i < MAX_REQUESTS)
  {
    if n > 0 {
      var reqs := Repeat(key, now, n);
      assert reqs[1..] == Repeat(key, now, n - 1);
      var a := Step(t, key, now);
      assert a.table[key] == Rec(1, now);
      BurstIntoOpenWindow(a.table, key, now, n - 1);
      var rest := Run(a.table, reqs[1..]);
      assert Run(t, reqs).admitted == [a.ok] + rest.admitted;
    }
  }

  /** The process-wide table of one handler module (a JavaScript `Map` that the
      handler updates in place). */
  class Limiter {
    var table: map<string, Rec>

    ghost predicate Valid()
      reads this
    {
      Bounded(table)
    }

    /** The empty table the module starts with. */
    constructor ()
      ensures table == map[]
      ensures Valid()
    {
      table := map[];
    }

    /** Counts one request from `key` at `now` and says whether it may proceed. */
    method Admit(key: string, now: int) returns (ok: bool)
      modifies this
      // unseen key: a new entry with a fresh window
      ensures key !in old(table) ==> ok && table == old(table)[key := Rec(1, now)]
      // open window below the limit: one more request, same window start
      ensures key in old(table) && Open(old(table)[key], now) && old(table)[key].count < MAX_REQUESTS ==>
                ok && table == old(table)[key := Rec(old(table)[key].count + 1, old(table)[key].timestamp)]
      // open window at the limit: refused, table untouched
      ensures key in old(table) && Open(old(table)[key], now) && old(table)[key].count >= MAX_REQUESTS ==>
                !ok && table == old(table)
      // elapsed window: reset to a fresh window at now
      ensures key in old(table) && !Open(old(table)[key], now) ==>
                ok && table == old(table)[key := Rec(1, now)]
      ensures Step(old(table), key, now) == Admission(ok, table)
      ensures old(Valid()) ==> Valid()
    {
      if key in table {
        if now - table[key].timestamp < RATE_LIMIT_DURATION {
          if table[key].count >= MAX_REQUESTS {
            return false;
          }
          table := table[key := table[key].(count := table[key].count + 1)];
        } else {
          table := table[key := table[key].(count := 1)];
          table := table[key := table[key].(timestamp := now)];
        }
      } else {
        table := table[key := Rec(1, now)];
      }
      return true;
    }
  }
}
