/** The retry schedule of `consultarCPF` (bot.js:308-351): up to
    `maxRetries` attempts, a longer timeout on the first, a growing pause
    between failures, a fresh proxy from the rotation on every attempt, and
    the first reply that arrives deciding the answer. The network is an
    oracle: `network(i)` is what attempt `i` runs into. */
module Query {
  import opened Options
  import opened Rotation

  const DefaultMaxRetries: int := 5
  const FirstTimeoutMs: nat := 90000
  const RetryTimeoutMs: nat := 60000
  const BackoffStepMs: nat := 2000
  /** The only status that counts as an answer. */
  const OkStatus: int := 200

  /** What one GET runs into. `TransportError` is any rejection of the
      request (timeout, refused connection, proxy failure); `NullBody` is a
      reply whose body is `null`, so that reading its `status` throws inside
      the same `try`; `Reply` carries the body's `status` and the body
      itself. */
  datatype Outcome<T> = TransportError | NullBody | Reply(status: int, body: T)

  /** The attempt ends in the `catch` branch. */
  predicate Throws<T>(o: Outcome<T>) {
    o.TransportError? || o.NullBody?
  }

  /** What a query did: its answer, the timeout of each attempt, the pause
      after each failed attempt that was followed by another one, the proxy
      each attempt went through (`None`: direct) and the rotation cursor it
      left behind. */
  datatype Trace<T, P> = Trace(result: Option<T>, timeouts: seq<nat>, delays: seq<nat>,
                               proxies: seq<Option<P>>, cursor: nat)

  /** The timeout of attempt `attempt`: the first attempt waits longest. */
  function TimeoutFor(attempt: nat): (r: nat)
    ensures RetryTimeoutMs <= r <= FirstTimeoutMs
    ensures r == FirstTimeoutMs <==> attempt == 0
  {
    if attempt == 0 then FirstTimeoutMs else RetryTimeoutMs
  }

  /** The pause after failed attempt `attempt`: 2 s, 4 s, 6 s, ... */
  function DelayAfter(attempt: nat): (r: nat)
    ensures r >= BackoffStepMs
  {
    (attempt + 1) * BackoffStepMs
  }

  /** The pauses start at one step and grow by one step per failure. */
  lemma BackoffGrows(attempt: nat)
    ensures DelayAfter(0) == BackoffStepMs
    ensures DelayAfter(attempt + 1) == DelayAfter(attempt) + BackoffStepMs
    ensures DelayAfter(attempt) < DelayAfter(attempt + 1)
  {
  }

  /** The answer of a query whose last attempt met `o`: the body of a reply
      with status 200, nothing otherwise. */
  function Answer<T>(o: Outcome<T>): Option<T> {
    if o.Reply? && o.status == OkStatus then Some(o.body) else None
  }

  /** The loop of `consultarCPF` from attempt `attempt` on. Each attempt
      first draws a proxy (bot.js:317 through `createAxiosInstance`). A reply
      ends the query, with the body when its status is 200 and with nothing
      otherwise. A failure is followed by a pause and the next attempt unless
      it was the last one allowed. A loop that never starts (`maxRetries` at
      most 0) answers nothing. */
  function Attempts<T, P>(network: nat -> Outcome<T>, maxRetries: int, attempt: nat,
                          enabled: bool, pool: seq<P>, cursor: nat): (r: Trace<T, P>)
    ensures attempt >= maxRetries ==> r == Trace(None, [], [], [], cursor)
    ensures attempt < maxRetries ==> 1 <= |r.timeouts| <= maxRetries - attempt
    ensures |r.proxies| == |r.timeouts|
    ensures attempt < maxRetries ==> |r.delays| == |r.timeouts| - 1
    ensures forall i :: 0 <= i < |r.timeouts| ==> r.timeouts[i] == TimeoutFor(attempt + i)
    ensures forall i :: 0 <= i < |r.delays| ==>
      r.delays[i] == DelayAfter(attempt + i) && Throws(network(attempt + i))
    ensures attempt < maxRetries ==>
      var last := attempt + |r.timeouts| - 1;
      r.result == Answer(network(last)) && (network(last).Reply? || last == maxRetries - 1)
    decreases maxRetries - attempt
  {
    if attempt >= maxRetries then Trace(None, [], [], [], cursor)
    else
      var pick := PickForRequest(enabled, pool, cursor);
      var timeout := TimeoutFor(attempt);
      var outcome := network(attempt);
      if !Throws(outcome) || attempt >= maxRetries - 1 then
        Trace(Answer(outcome), [timeout], [], [pick.proxy], pick.cursor)
      else
        var rest := Attempts(network, maxRetries, attempt + 1, enabled, pool, pick.cursor);
        PrependTimeout(attempt, rest.timeouts);
        PrependDelay(network, attempt, rest.delays);
        Trace(rest.result, [timeout] + rest.timeouts, [DelayAfter(attempt)] + rest.delays,
              [pick.proxy] + rest.proxies, rest.cursor)
  }

  /** The timeouts of attempts `attempt + 1, ...` preceded by the timeout of
      `attempt` are the timeouts of attempts `attempt, ...`. */
  lemma PrependTimeout(attempt: nat, rest: seq<nat>)
    requires forall i :: 0 <= i < |rest| ==> rest[i] == TimeoutFor(attempt + 1 + i)
    ensures var ts := [TimeoutFor(attempt)] + rest;
      forall i :: 0 <= i < |ts| ==> ts[i] == TimeoutFor(attempt + i)
  {
    var ts := [TimeoutFor(attempt)] + rest;
    forall i | 0 < i < |ts| ensures ts[i] == TimeoutFor(attempt + i) {
      var j := i - 1;
      assert ts[i] == rest[j];
      assert attempt + 1 + j == attempt + i;
    }
  }

  /** The same for the pauses, given that `attempt` failed. */
  lemma PrependDelay<T>(network: nat -> Outcome<T>, attempt: nat, rest: seq<nat>)
    requires Throws(network(attempt))
    requires forall i :: 0 <= i < |rest| ==>
      rest[i] == DelayAfter(attempt + 1 + i) && Throws(network(attempt + 1 + i))
    ensures var ds := [DelayAfter(attempt)] + rest;
      forall i :: 0 <= i < |ds| ==> ds[i] == DelayAfter(attempt + i) && Throws(network(attempt + i))
  {
    var ds := [DelayAfter(attempt)] + rest;
    forall i | 0 <= i < |ds|
      ensures ds[i] == DelayAfter(attempt + i) && Throws(network(attempt + i))
    {
      if i == 0 {
        assert ds[0] == DelayAfter(attempt + 0);
      } else {
        var j := i - 1;
        assert ds[i] == rest[j];
        assert attempt + 1 + j == attempt + i;
      }
    }
  }

  /** A failed attempt that is not the last one: its pick, then the rest. */
  lemma AttemptsUnfold<T, P>(network: nat -> Outcome<T>, maxRetries: int, attempt: nat,
                             enabled: bool, pool: seq<P>, cursor: nat)
    requires attempt < maxRetries - 1 && Throws(network(attempt))
    ensures var pick := PickForRequest(enabled, pool, cursor);
      var rest := Attempts(network, maxRetries, attempt + 1, enabled, pool, pick.cursor);
      var r := Attempts(network, maxRetries, attempt, enabled, pool, cursor);
      r.proxies == [pick.proxy] + rest.proxies && r.cursor == rest.cursor &&
      |r.timeouts| == 1 + |rest.timeouts|
  {
  }

  /** An attempt that gets a reply, or the last one: its pick ends the trace. */
  lemma AttemptsStop<T, P>(network: nat -> Outcome<T>, maxRetries: int, attempt: nat,
                           enabled: bool, pool: seq<P>, cursor: nat)
    requires attempt < maxRetries && !(Throws(network(attempt)) && attempt < maxRetries - 1)
    ensures var pick := PickForRequest(enabled, pool, cursor);
      var r := Attempts(network, maxRetries, attempt, enabled, pool, cursor);
      r.proxies == [pick.proxy] && r.cursor == pick.cursor
  {
  }

  /** With proxies enabled the attempts see consecutive picks of the
      rotation and leave the cursor where that many calls of
      `getNextProxy` would. */
  lemma {:induction false} AttemptsFollowRotation<T, P>(network: nat -> Outcome<T>, maxRetries: int,
                                                        attempt: nat, pool: seq<P>, cursor: nat)
    ensures var r := Attempts(network, maxRetries, attempt, true, pool, cursor);
      r.proxies == Run(pool, cursor, |r.timeouts|).proxies && r.cursor == Run(pool, cursor, |r.timeouts|).cursor
    decreases maxRetries - attempt
  {
    var r := Attempts(network, maxRetries, attempt, true, pool, cursor);
    var first := Next(pool, cursor);
    if attempt < maxRetries {
      assert PickForRequest(true, pool, cursor) == first;
      if Throws(network(attempt)) && attempt < maxRetries - 1 {
        AttemptsUnfold(network, maxRetries, attempt, true, pool, cursor);
        var rest := Attempts(network, maxRetries, attempt + 1, true, pool, first.cursor);
        AttemptsFollowRotation(network, maxRetries, attempt + 1, pool, first.cursor);
        assert Run(pool, cursor, |r.timeouts|) ==
          Picks([first.proxy] + Run(pool, first.cursor, |rest.timeouts|).proxies,
                Run(pool, first.cursor, |rest.timeouts|).cursor);
      } else {
        assert r == Trace(Answer(network(attempt)), [TimeoutFor(attempt)], [], [first.proxy], first.cursor);
        assert Run(pool, cursor, 1) == Picks([first.proxy], first.cursor);
      }
    }
  }

  /** With proxies disabled every attempt goes direct and the cursor stays
      put. */
  lemma AttemptsGoDirect<T, P>(network: nat -> Outcome<T>, maxRetries: int,
                               attempt: nat, pool: seq<P>, cursor: nat)
    ensures var r := Attempts(network, maxRetries, attempt, false, pool, cursor);
      r.cursor == cursor && forall i :: 0 <= i < |r.proxies| ==> r.proxies[i] == None
  {
    var r := Attempts(network, maxRetries, attempt, false, pool, cursor);
    forall i | 0 <= i < |r.proxies|
      ensures r.proxies[i] == None
    {
      DirectAt(network, maxRetries, attempt, pool, cursor, i);
    }
    DirectKeepsCursor(network, maxRetries, attempt, pool, cursor);
  }

  lemma {:induction false} DirectAt<T, P>(network: nat -> Outcome<T>, maxRetries: int,
                                          attempt: nat, pool: seq<P>, cursor: nat, i: nat)
    requires i < |Attempts(network, maxRetries, attempt, false, pool, cursor).proxies|
    ensures Attempts(network, maxRetries, attempt, false, pool, cursor).proxies[i] == None
    decreases i
  {
    assert PickForRequest(false, pool, cursor) == Pick(None, cursor);
    if Throws(network(attempt)) && attempt < maxRetries - 1 {
      AttemptsUnfold(network, maxRetries, attempt, false, pool, cursor);
      if i > 0 {
        DirectAt(network, maxRetries, attempt + 1, pool, cursor, i - 1);
      }
    } else if attempt < maxRetries {
      AttemptsStop(network, maxRetries, attempt, false, pool, cursor);
    }
  }

  lemma {:induction false} DirectKeepsCursor<T, P>(network: nat -> Outcome<T>, maxRetries: int,
                                                   attempt: nat, pool: seq<P>, cursor: nat)
    ensures Attempts(network, maxRetries, attempt, false, pool, cursor).cursor == cursor
    decreases maxRetries - attempt
  {
    assert PickForRequest(false, pool, cursor) == Pick(None, cursor);
    if attempt < maxRetries - 1 && Throws(network(attempt)) {
      AttemptsUnfold(network, maxRetries, attempt, false, pool, cursor);
      DirectKeepsCursor(network, maxRetries, attempt + 1, pool, cursor);
    }
  }

  /** `consultarCPF(cpf, maxRetries)`: a query with no attempts answers
      nothing; otherwise it makes between one and `maxRetries` requests,
      every request but the last failed, and an answer is the body of a
      last reply with status 200. */
  function Consult<T, P>(network: nat -> Outcome<T>, maxRetries: int, enabled: bool,
                         pool: seq<P>, cursor: nat): (r: Trace<T, P>)
    ensures maxRetries <= 0 ==> r.result == None && r.timeouts == []
    ensures maxRetries > 0 ==> 1 <= |r.timeouts| <= maxRetries
    ensures forall i :: 0 <= i < |r.timeouts| - 1 ==> Throws(network(i))
    ensures r.result.Some? ==> network(|r.timeouts| - 1) == Reply(OkStatus, r.result.value)
  {
    var r := Attempts(network, maxRetries, 0, enabled, pool, cursor);
    assert forall i :: 0 <= i < |r.timeouts| - 1 ==> Throws(network(i)) by {
      forall i | 0 <= i < |r.timeouts| - 1 ensures Throws(network(i)) {
        assert r.delays[i] == DelayAfter(0 + i);
      }
    }
    r
  }

  /** The first reply decides: when attempts before `j` all failed and
      attempt `j` gets a reply, the query makes exactly `j + 1` attempts
      and answers with that reply's body if its status is 200 and with
      nothing otherwise, even when retries are left. */
  lemma FirstReplyDecides<T, P>(network: nat -> Outcome<T>, maxRetries: int, enabled: bool,
                                pool: seq<P>, cursor: nat, j: nat)
    requires j < maxRetries
    requires forall i :: 0 <= i < j ==> Throws(network(i))
    requires network(j).Reply?
    ensures |Consult(network, maxRetries, enabled, pool, cursor).timeouts| == j + 1
    ensures Consult(network, maxRetries, enabled, pool, cursor).result ==
      (if network(j).status == OkStatus then Some(network(j).body) else None)
  {
    var r := Consult(network, maxRetries, enabled, pool, cursor);
    forall i | 0 <= i < |r.delays|
      ensures Throws(network(i))
    {
      assert r.delays[i] == DelayAfter(0 + i);
    }
  }

  /** When every attempt fails the query answers nothing after exactly
      `maxRetries` attempts: 90 s then 60 s timeouts, and the pauses 2 s,
      4 s, ... between them. */
  lemma {:induction false} ExhaustedRetries<T, P>(network: nat -> Outcome<T>, maxRetries: int,
                                                  enabled: bool, pool: seq<P>, cursor: nat)
    requires maxRetries > 0
    requires forall i :: 0 <= i < maxRetries ==> Throws(network(i))
    ensures Consult(network, maxRetries, enabled, pool, cursor).result == None
    ensures |Consult(network, maxRetries, enabled, pool, cursor).timeouts| == maxRetries
    ensures Consult(network, maxRetries, enabled, pool, cursor).timeouts ==
      [FirstTimeoutMs] + seq(maxRetries - 1, _ => RetryTimeoutMs)
    ensures Consult(network, maxRetries, enabled, pool, cursor).delays ==
      seq(maxRetries - 1, i => (i + 1) * BackoffStepMs)
  {
    var r := Consult(network, maxRetries, enabled, pool, cursor);
    var n := |r.timeouts|;
    var last := n - 1;
    assert Throws(network(last));
    assert last == maxRetries - 1;
    assert r.result == None;
    assert r.timeouts == [FirstTimeoutMs] + seq(maxRetries - 1, _ => RetryTimeoutMs);
    assert r.delays == seq(maxRetries - 1, i => (i + 1) * BackoffStepMs);
  }

  /** The sum of a sequence of durations. */
  function Total(s: seq<nat>): nat {
    if s == [] then 0 else Total(s[..|s| - 1]) + s[|s| - 1]
  }

  lemma {:induction false} BackoffTotal(k: nat)
    ensures Total(seq(k, i => (i + 1) * BackoffStepMs)) == 1000 * k * (k + 1)
  {
    if k > 0 {
      var s := seq(k, i => (i + 1) * BackoffStepMs);
      assert s[..k - 1] == seq(k - 1, i => (i + 1) * BackoffStepMs);
      BackoffTotal(k - 1);
      assert 1000 * (k - 1) * k + k * 2000 == 1000 * k * (k + 1);
    }
  }

  lemma {:induction false} ConstantTotal(k: nat, d: nat)
    ensures Total(seq(k, _ => d)) == k * d
  {
    if k > 0 {
      assert seq(k, _ => d)[..k - 1] == seq(k - 1, _ => d);
      ConstantTotal(k - 1, d);
    }
  }

  /** Durations add up piecewise: the total of two runs is the sum of theirs. */
  lemma {:induction false} TotalAppend(s: seq<nat>, t: seq<nat>)
    ensures Total(s + t) == Total(s) + Total(t)
    decreases |t|
  {
    if t == [] {
      assert s + t == s;
    } else {
      assert (s + t)[..|s + t| - 1] == s + t[..|t| - 1];
      TotalAppend(s, t[..|t| - 1]);
    }
  }

  /** What the timeouts and pauses of a failing query add up to:
      90 s + (m - 1) * 60 s + m * (m - 1) s for `m` attempts, 350 s with the
      default of five. */
  lemma WorstCaseWait<T, P>(network: nat -> Outcome<T>, maxRetries: int,
                            enabled: bool, pool: seq<P>, cursor: nat)
    requires maxRetries > 0
    requires forall i :: 0 <= i < maxRetries ==> Throws(network(i))
    ensures Total(Consult(network, maxRetries, enabled, pool, cursor).timeouts) +
            Total(Consult(network, maxRetries, enabled, pool, cursor).delays) ==
      FirstTimeoutMs + (maxRetries - 1) * RetryTimeoutMs + 1000 * (maxRetries - 1) * maxRetries
    ensures maxRetries == DefaultMaxRetries ==>
      Total(Consult(network, maxRetries, enabled, pool, cursor).timeouts) +
      Total(Consult(network, maxRetries, enabled, pool, cursor).delays) == 350000
  {
    var r := Consult(network, maxRetries, enabled, pool, cursor);
    ExhaustedRetries(network, maxRetries, enabled, pool, cursor);
    ScheduleTotal(r.timeouts, r.delays, maxRetries);
  }

  /** The timeouts and pauses of `m` failed attempts add up to
      `90 s + (m - 1) * 60 s + m * (m - 1) s`. */
  lemma ScheduleTotal(timeouts: seq<nat>, delays: seq<nat>, m: nat)
    requires m > 0
    requires timeouts == [FirstTimeoutMs] + seq(m - 1, _ => RetryTimeoutMs)
    requires delays == seq(m - 1, i => (i + 1) * BackoffStepMs)
    ensures Total(timeouts) + Total(delays) == FirstTimeoutMs + (m - 1) * RetryTimeoutMs + 1000 * (m - 1) * m
    ensures m == DefaultMaxRetries ==> Total(timeouts) + Total(delays) == 350000
  {
    ConstantTotal(m - 1, RetryTimeoutMs);
    TotalAppend([FirstTimeoutMs], seq(m - 1, _ => RetryTimeoutMs));
    assert Total([FirstTimeoutMs]) == FirstTimeoutMs by {
      assert [FirstTimeoutMs][..0] == [];
    }
    BackoffTotal(m - 1);
  }

  /** With proxies enabled and the cursor in range, attempt `i` goes through
      the pool entry `i` places after the cursor, cyclically; so a query
      allowed no more attempts than there are proxies never goes through
      the same pool entry twice. */
  lemma AttemptsRotate<T, P>(network: nat -> Outcome<T>, maxRetries: int,
                             pool: seq<P>, cursor: nat)
    requires cursor < |pool|
    ensures forall i :: 0 <= i < |Consult(network, maxRetries, true, pool, cursor).proxies| ==>
      Consult(network, maxRetries, true, pool, cursor).proxies[i] == Some(pool[Slot(cursor, i, |pool|)])
    ensures maxRetries <= |pool| ==>
      forall i, j :: 0 <= i < j < |Consult(network, maxRetries, true, pool, cursor).proxies| ==>
        Slot(cursor, i, |pool|) != Slot(cursor, j, |pool|)
  {
    var r := Consult(network, maxRetries, true, pool, cursor);
    AttemptsFollowRotation(network, maxRetries, 0, pool, cursor);
    RunInRange(pool, cursor, |r.timeouts|);
    if maxRetries <= |pool| {
      forall i, j | 0 <= i < j < |r.proxies|
        ensures Slot(cursor, i, |pool|) != Slot(cursor, j, |pool|)
      {
        SlotInLap(cursor, i, |pool|);
        SlotInLap(cursor, j, |pool|);
      }
    }
  }
}
