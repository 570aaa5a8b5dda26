/** The `polling_error` handler installed by `iniciar` (bot.js:903-937):
    how the bot reacts when long-polling Telegram fails, and when it calls
    `iniciar` again. Timers become the delays they are armed with. */
module Supervisor {
  import opened Text
  import opened ProxyPool
  import opened Options

  const ReconnectDelayMs: nat := 3000
  const RefetchDelayMs: nat := 5000
  const ReconnectRetryMs: nat := 10000
  const NoProxyRetryMs: nat := 30000

  /** The `message` and `code` of the error Telegram's client reports. */
  datatype PollingError = PollingError(message: string, code: string)

  /** What the handler schedules: nothing, a reconnection through the next
      proxy, or a new fetch of the proxy list. */
  datatype Reaction = Ignore | Reconnect(afterMs: nat) | RefetchProxies(afterMs: nat)

  /** The connectivity test of the handler: a timeout or a refused
      connection named in the message, or the client's fatal code. */
  predicate IsConnectivityError(e: PollingError) {
    Contains(e.message, "ETIMEDOUT") || Contains(e.message, "ECONNREFUSED") || e.code == "EFATAL"
  }

  /** The test holds exactly when one of the two markers occurs somewhere
      in the message or the code is `EFATAL`. */
  lemma ConnectivityErrorSpelled(e: PollingError)
    ensures IsConnectivityError(e) <==>
      IsInfix("ETIMEDOUT", e.message) || IsInfix("ECONNREFUSED", e.message) || e.code == "EFATAL"
  {
    ContainsIsInfix(e.message, "ETIMEDOUT");
    ContainsIsInfix(e.message, "ECONNREFUSED");
  }

  /** The handler: other errors are only logged; a connectivity error
      reconnects after 3 s when proxies are available, and otherwise
      fetches the proxy list again after 5 s. */
  function React(e: PollingError, poolSize: nat): (r: Reaction)
    ensures r.Ignore? <==> !IsConnectivityError(e)
    ensures r.Reconnect? <==> IsConnectivityError(e) && poolSize > 0
    ensures r.RefetchProxies? <==> IsConnectivityError(e) && poolSize == 0
    ensures r.Reconnect? ==> r.afterMs == ReconnectDelayMs
    ensures r.RefetchProxies? ==> r.afterMs == RefetchDelayMs
  {
    if !IsConnectivityError(e) then Ignore
    else if poolSize > 0 then Reconnect(ReconnectDelayMs)
    else RefetchProxies(RefetchDelayMs)
  }

  /** Whether the handler ends up calling `iniciar` again, and if so the sum
      of the timers it arms on the way: `None` when it never does. A
      reconnection that throws retries `iniciar` 10 s later; after a new
      fetch `iniciar` runs at once if the pool is no longer empty and 30 s
      later otherwise. The time the awaited fetch itself takes (bot.js:928)
      is not part of the value. The pool after the fetch is `Refresh` of the
      empty pool. */
  function RestartAfter(e: PollingError, pool: seq<Proxy>, reconnectThrows: bool,
                        fetch: Fetch, probes: seq<bool>): (r: Option<nat>)
    requires fetch.Fetched? ==> |probes| == SampleSize(|KeepBrazilian(fetch.results)|)
    ensures r.Some? ==> IsConnectivityError(e)
    ensures IsConnectivityError(e) && |pool| == 0 ==> r.Some?
    ensures IsConnectivityError(e) && |pool| > 0 ==> (r.Some? <==> reconnectThrows)
    ensures r.Some? ==> RefetchDelayMs <= r.value <= RefetchDelayMs + NoProxyRetryMs
    ensures IsConnectivityError(e) && |pool| > 0 && reconnectThrows ==>
      r == Some(ReconnectDelayMs + ReconnectRetryMs)
    ensures IsConnectivityError(e) && |pool| == 0 ==>
      (r == Some(RefetchDelayMs) <==> |Refresh(pool, fetch, probes)| > 0)
    ensures IsConnectivityError(e) && |pool| == 0 ==>
      (r == Some(RefetchDelayMs + NoProxyRetryMs) <==> |Refresh(pool, fetch, probes)| == 0)
  {
    match React(e, |pool|)
    case Ignore => None
    case Reconnect(d) => if reconnectThrows then Some(d + ReconnectRetryMs) else None
    case RefetchProxies(d) =>
      if |Refresh(pool, fetch, probes)| > 0 then Some(d) else Some(d + NoProxyRetryMs)
  }
}
