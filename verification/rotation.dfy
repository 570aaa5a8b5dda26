/** Round-robin proxy rotation: `getNextProxy` (bot.js:193-199) over the
    shared pool `proxies` and cursor `currentProxyIndex`, and the guard in
    front of it that decides between a proxied and a direct request. */
module Rotation {
  import opened Options

  /** What one call hands out and the cursor it leaves behind. */
  datatype Pick<P> = Pick(proxy: Option<P>, cursor: nat)

  /** The picks of several consecutive calls and the final cursor. */
  datatype Picks<P> = Picks(proxies: seq<Option<P>>, cursor: nat)

  /** `getNextProxy`. An empty pool gives `null` and leaves the cursor alone.
      Otherwise the call reads the pool at the cursor and advances the cursor
      modulo the pool length; the pool is replaced elsewhere without the cursor
      being reset, so the read can fall past the end and yield `undefined`
      (both are `None` here). */
  function Next<P>(pool: seq<P>, cursor: nat): (r: Pick<P>)
    ensures |pool| == 0 ==> r == Pick(None, cursor)
    ensures |pool| > 0 ==> r.cursor < |pool|
    ensures r.proxy.Some? <==> cursor < |pool|
    ensures cursor < |pool| ==> r.proxy == Some(pool[cursor])
  {
    if |pool| == 0 then Pick(None, cursor)
    else Pick(if cursor < |pool| then Some(pool[cursor]) else None, Mod(cursor + 1, |pool|))
  }

  /** The remainder of `a` divided by `n`, by repeated subtraction. */
  function Mod(a: nat, n: nat): (r: nat)
    requires n > 0
    ensures r < n
    decreases a
  {
    if a < n then a else Mod(a - n, n)
  }

  /** The guard shared by `createAxiosInstance` (bot.js:222-232) and
      `inicializarBot` (bot.js:248-250): rotate only when proxies are enabled
      and the pool is non-empty, otherwise connect directly. */
  function PickForRequest<P>(enabled: bool, pool: seq<P>, cursor: nat): (r: Pick<P>)
    ensures !enabled || |pool| == 0 ==> r == Pick(None, cursor)
    ensures enabled ==> r == Next(pool, cursor)
  {
    if enabled && |pool| > 0 then Next(pool, cursor) else Pick(None, cursor)
  }

  /** `k` consecutive calls of `getNextProxy` from `cursor`. */
  function Run<P>(pool: seq<P>, cursor: nat, k: nat): (r: Picks<P>)
    ensures |r.proxies| == k
    decreases k
  {
    if k == 0 then Picks([], cursor)
    else
      var first := Next(pool, cursor);
      var rest := Run(pool, first.cursor, k - 1);
      Picks([first.proxy] + rest.proxies, rest.cursor)
  }

  /** The cursor after one call on a pool of `n` when it was in range. */
  function Advance(cursor: nat, n: nat): (r: nat)
    requires cursor < n
    ensures r < n
  {
    if cursor + 1 < n then cursor + 1 else 0
  }

  /** The pool index that call number `i` reads when the rotation starts at
      an in-range `cursor`: each call reads one place further on, wrapping
      from the last index back to 0. */
  function Slot(cursor: nat, i: nat, n: nat): (r: nat)
    requires cursor < n
    ensures r < n
    decreases i
  {
    if i == 0 then cursor else Advance(Slot(cursor, i - 1, n), n)
  }

  /** The cyclic order of one lap: the index read by each of `n` calls. */
  function Order(cursor: nat, n: nat): (r: seq<nat>)
    requires cursor < n
    ensures |r| == n
    ensures forall i :: 0 <= i < n ==> r[i] == Slot(cursor, i, n)
  {
    seq(n, i requires 0 <= i < n => Slot(cursor, i, n))
  }

  lemma MulAtLeast(a: int, n: int)
    requires a >= 1 && n > 0
    ensures a * n >= n
  {
  }

  /** Euclidean remainders are unique. */
  lemma ModUnique(x: int, n: int, q: int, r: int)
    requires n > 0 && 0 <= r < n && x == q * n + r
    ensures x % n == r
  {
    var q', r' := x / n, x % n;
    assert (q' - q) * n == r - r';
    if q' - q >= 1 {
      MulAtLeast(q' - q, n);
    } else if q - q' >= 1 {
      MulAtLeast(q - q', n);
    }
  }

  /** `Mod` is JavaScript's `%` on non-negative operands. */
  lemma {:induction false} ModIsRemainder(a: nat, n: nat)
    requires n > 0
    ensures Mod(a, n) == a % n
    decreases a
  {
    if a < n {
      ModUnique(a, n, 0, a);
    } else {
      ModIsRemainder(a - n, n);
      var q := (a - n) / n;
      assert a - n == q * n + (a - n) % n;
      assert (q + 1) * n == q * n + n;
      ModUnique(a, n, q + 1, (a - n) % n);
    }
  }

  /** The cursor update of `getNextProxy` is `(cursor + 1) % length`. */
  lemma NextIsModulo<P>(pool: seq<P>, cursor: nat)
    requires |pool| > 0
    ensures Next(pool, cursor).cursor == (cursor + 1) % |pool|
  {
    ModIsRemainder(cursor + 1, |pool|);
  }

  /** For an in-range cursor, one call is one step of `Advance`. */
  lemma NextAdvances<P>(pool: seq<P>, cursor: nat)
    requires cursor < |pool|
    ensures Next(pool, cursor).cursor == Advance(cursor, |pool|)
  {
    if cursor + 1 >= |pool| {
      assert Mod(cursor + 1, |pool|) == Mod(0, |pool|);
    }
  }

  lemma {:induction false} SlotShift(cursor: nat, i: nat, n: nat)
    requires cursor < n
    ensures Slot(Advance(cursor, n), i, n) == Slot(cursor, i + 1, n)
    decreases i
  {
    if i > 0 {
      SlotShift(cursor, i - 1, n);
    }
  }

  /** Within one lap the slot wraps around at most once. */
  lemma {:induction false} SlotInLap(cursor: nat, i: nat, n: nat)
    requires cursor < n && i < n
    ensures Slot(cursor, i, n) == if cursor + i < n then cursor + i else cursor + i - n
    decreases i
  {
    if i > 0 {
      SlotInLap(cursor, i - 1, n);
    }
  }

  /** One call from an in-range cursor, then the remaining calls. */
  lemma RunUnfold<P>(pool: seq<P>, cursor: nat, k: nat)
    requires cursor < |pool| && k > 0
    ensures Run(pool, cursor, k) ==
      Picks([Some(pool[cursor])] + Run(pool, Advance(cursor, |pool|), k - 1).proxies,
            Run(pool, Advance(cursor, |pool|), k - 1).cursor)
  {
    NextAdvances(pool, cursor);
  }

  /** Call `i` from an in-range cursor reads the pool `i` places on. */
  lemma {:induction false} RunAt<P>(pool: seq<P>, cursor: nat, k: nat, i: nat)
    requires cursor < |pool| && i < k
    ensures Run(pool, cursor, k).proxies[i] == Some(pool[Slot(cursor, i, |pool|)])
    decreases i
  {
    RunUnfold(pool, cursor, k);
    if i > 0 {
      var c1 := Advance(cursor, |pool|);
      RunAt(pool, c1, k - 1, i - 1);
      SlotShift(cursor, i - 1, |pool|);
    }
  }

  /** `k` calls from an in-range cursor move it `k` places on. */
  lemma {:induction false} RunCursor<P>(pool: seq<P>, cursor: nat, k: nat)
    requires cursor < |pool|
    ensures Run(pool, cursor, k).cursor == Slot(cursor, k, |pool|)
    decreases k
  {
    if k > 0 {
      RunUnfold(pool, cursor, k);
      RunCursor(pool, Advance(cursor, |pool|), k - 1);
      SlotShift(cursor, k - 1, |pool|);
    }
  }

  /** From an in-range cursor, call `i` returns the proxy `i` places further
      on, cyclically, and the cursor ends `k` places further on. */
  lemma RunInRange<P>(pool: seq<P>, cursor: nat, k: nat)
    requires cursor < |pool|
    ensures forall i :: 0 <= i < k ==> Run(pool, cursor, k).proxies[i] == Some(pool[Slot(cursor, i, |pool|)])
    ensures Run(pool, cursor, k).cursor == Slot(cursor, k, |pool|)
  {
    forall i | 0 <= i < k
      ensures Run(pool, cursor, k).proxies[i] == Some(pool[Slot(cursor, i, |pool|)])
    {
      RunAt(pool, cursor, k, i);
    }
    RunCursor(pool, cursor, k);
  }

  /** One lap lists every index exactly once. */
  lemma OrderDistinct(cursor: nat, n: nat)
    requires cursor < n
    ensures forall i, j :: 0 <= i < j < n ==> Order(cursor, n)[i] != Order(cursor, n)[j]
  {
    forall i, j | 0 <= i < j < n
      ensures Slot(cursor, i, n) != Slot(cursor, j, n)
    {
      SlotInLap(cursor, i, n);
      SlotInLap(cursor, j, n);
    }
  }

  lemma OrderCovers(cursor: nat, n: nat)
    requires cursor < n
    ensures forall x :: 0 <= x < n ==> x in Order(cursor, n)
  {
    var order := Order(cursor, n);
    forall x | 0 <= x < n
      ensures x in order
    {
      var i: nat := if cursor <= x then x - cursor else x + n - cursor;
      SlotInLap(cursor, i, n);
      assert order[i] == x;
    }
  }

  /** After a lap the rotation is back where it started. */
  lemma LapReturns(cursor: nat, n: nat)
    requires cursor < n
    ensures Slot(cursor, n, n) == cursor
  {
    SlotInLap(cursor, n - 1, n);
    assert Slot(cursor, n, n) == Advance(Slot(cursor, n - 1, n), n);
  }

  /** Round-robin fairness: `|pool|` consecutive calls from an in-range
      cursor read the pool in the cyclic order `Order`, which lists every
      index exactly once, and leave the cursor where it started, so call
      `|pool| + 1` repeats the first. */
  lemma FullCycle<P>(pool: seq<P>, cursor: nat)
    requires cursor < |pool|
    ensures forall i :: 0 <= i < |pool| ==> Run(pool, cursor, |pool|).proxies[i] == Some(pool[Order(cursor, |pool|)[i]])
    ensures forall i, j :: 0 <= i < j < |pool| ==> Order(cursor, |pool|)[i] != Order(cursor, |pool|)[j]
    ensures forall x :: 0 <= x < |pool| ==> x in Order(cursor, |pool|)
    ensures Order(cursor, |pool|)[0] == cursor
    ensures Run(pool, cursor, |pool|).cursor == cursor
    ensures Run(pool, cursor, |pool| + 1).proxies[|pool|] == Run(pool, cursor, |pool| + 1).proxies[0]
  {
    LapReads(pool, cursor);
    OrderDistinct(cursor, |pool|);
    OrderCovers(cursor, |pool|);
    LapRepeats(pool, cursor);
  }

  lemma LapReads<P>(pool: seq<P>, cursor: nat)
    requires cursor < |pool|
    ensures forall i :: 0 <= i < |pool| ==> Run(pool, cursor, |pool|).proxies[i] == Some(pool[Order(cursor, |pool|)[i]])
  {
    var n := |pool|;
    forall i | 0 <= i < n
      ensures Run(pool, cursor, n).proxies[i] == Some(pool[Order(cursor, n)[i]])
    {
      RunAt(pool, cursor, n, i);
    }
  }

  lemma LapRepeats<P>(pool: seq<P>, cursor: nat)
    requires cursor < |pool|
    ensures Run(pool, cursor, |pool|).cursor == cursor
    ensures Run(pool, cursor, |pool| + 1).proxies[|pool|] == Run(pool, cursor, |pool| + 1).proxies[0]
  {
    var n := |pool|;
    LapReturns(cursor, n);
    RunCursor(pool, cursor, n);
    RunAt(pool, cursor, n + 1, n);
    RunAt(pool, cursor, n + 1, 0);
  }

  /** After a pool replacement leaves the cursor past the end, exactly one
      call hands out nothing (its request goes direct) and the rotation then
      restarts in range. */
  lemma StaleCursorRecovers<P>(pool: seq<P>, cursor: nat, k: nat)
    requires 0 < |pool| <= cursor
    ensures k > 0 ==> Run(pool, cursor, k).proxies[0] == None
    ensures forall i :: 1 <= i < k ==>
      Run(pool, cursor, k).proxies[i] == Some(pool[Slot((cursor + 1) % |pool|, i - 1, |pool|)])
  {
    if k > 0 {
      var c1 := (cursor + 1) % |pool|;
      NextIsModulo(pool, cursor);
      RunInRange(pool, c1, k - 1);
      var r := Run(pool, cursor, k);
      assert r.proxies[1..] == Run(pool, c1, k - 1).proxies;
    }
  }
}
