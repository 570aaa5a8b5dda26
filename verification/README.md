# MRBOOT core in Dafny

MRBOOT is a Telegram bot (`bot.js`). A user sends it a CPF, the Brazilian taxpayer number. The bot queries a lookup API and replies with the formatted result. To reach the API it goes through proxies, which it buys from a provider (WebShare).

This project models the deterministic logic inside `bot.js`, as pure Dafny functions:

- **Chunker** (`chunker.dfy`): `dividirMensagens`. It cuts a long reply into chat-sized segments: at line breaks first, then at spaces for a line that is itself too long. It also covers the re-splitting step that `processarConsulta` applies to over-long messages before sending them.
- **Rotation** (`rotation.dfy`): `getNextProxy`, the round-robin cursor over the proxy pool. It also covers the guard that chooses between a proxied and a direct request.
- **Query** (`query.dfy`): the retry loop of `consultarCPF`. It covers:
  - the attempt count;
  - the timeouts and the back-off pauses;
  - the proxy drawn for each attempt;
  - how the first reply decides the answer.
- **ProxyPool** (`pool.dfy`): how `buscarProxiesWebShare` rebuilds the pool. The provider's listing is mapped to proxy records and narrowed to Brazilian proxies. The first ten are probed. A probed proxy that fails is dropped, provided at least one probe passed; when every probe fails, the whole filtered pool is kept.
- **Cpf** (`cpf.dfy`): `formatarCPF` and `validarCPF`.
- **Supervisor** (`supervisor.dfy`): the `polling_error` handler, meaning which errors cause a reconnection or a new proxy fetch, and when `iniciar` runs again.
- **Text**, **Seqs** and **Options** (`text.dfy`, `seqs.dfy`, `options.dfy`): the JavaScript string and array primitives these use, stated once. They are `trim`, `split`, `includes`, `toUpperCase` and `filter`, plus `null`/`undefined` as an optional value. `Text.Join` is not used by the modelled code; it is the reference partner that `split` is proved against.

Everything that touches the outside world is passed in as an input:

- the outcome of each HTTP request is an oracle `network(attempt)`;
- the provider's listing is a `Fetch` value;
- the verdict of each proxy probe is a `seq<bool>`;
- whether proxies are enabled is a `bool`.

Five behaviours of the code are easy to miss:

- Replacing the proxy pool never resets the rotation cursor (bot.js:73, 107, 137). A cursor left past the end of a smaller pool reads `undefined`, so that request goes out directly. `Rotation.Next` returns `None` in that case, and `Rotation.StaleCursorRecovers` shows the rotation is back in range after that single call.
- A refresh is not always harmless. It keeps the old pool only when the listing is unavailable or empty. When the listing is non-empty but holds no Brazilian proxy, the pool is overwritten with the empty filter result at bot.js:73 (see `ProxyPool.RefreshReplaces`).
- The fallback filter at bot.js:129-148 is never reached. It needs a non-empty `results`, and that case already returned at bot.js:122. Only the log line and the `response.data` test before it (bot.js:125-127) run.
- The extra re-split before sending (bot.js:401-403) never shortens anything `formatarResposta` returns. Every message it sends is either a constant or a segment of `dividirMensagens(resposta.trim(), 3900)` (bot.js:737-739). A segment over 3900 characters is a single word with no space and no line break, and chunking it again hands it back unchanged (`Chunker.ResplitIsIdentity`). So a word of more than 4096 characters is sent over the transport limit (`Chunker.DeliverKeepsSegments`, `Chunker.OversizedWordSent`).
- The `polling_error` handler is registered only inside `iniciar` (bot.js:898). A reconnection that succeeds (bot.js:913-915) builds a new bot object (bot.js:282) and calls `configurarHandlers` again, which re-registers the `/start`, `/help` and `/consulta` command handlers and the `message` handler (bot.js:745-811) but not `polling_error`. After such a reconnection a second connectivity error is not handled at all. `Supervisor.RestartAfter` returns `None` for a reconnection that does not throw, which agrees with this.

## Model

| member | source | states |
|---|---|---|
| Chunker.SplitMessages | bot.js:430-433 | A text no longer than the limit comes back as the single segment `[text]`, untrimmed. |
| Chunker.SegmentsAreTrimmed | bot.js:437-482 | When the text is over the limit, every segment is non-empty and equal to its own trim. |
| Chunker.SegmentsFit | bot.js:437-482 | When no space-separated word of any line is longer than the limit, every segment fits within the limit. |
| Chunker.LongWordIsNotCut | bot.js:441-463 | A text that is a single word longer than the limit is emitted whole, as one over-long segment. |
| Chunker.LongLineWordStaysWhole | bot.js:437-482 | For a line longer than the limit, each space-separated piece that is not blank ends up, trimmed but otherwise whole, inside one segment, even when it is itself longer than the limit. |
| Chunker.WordStepPlaces | bot.js:449-460 | One step of the word loop places the word, trimmed and whole, in the emitted segments or the buffer, whatever its length. |
| Chunker.LongLinePlaces | bot.js:441-463 | After a long line is processed, each non-blank piece of it occurs whole in a pushed segment or in the trimmed last piece kept pending. |
| Chunker.ContentPreserved | bot.js:437-482 | Deleting whitespace from the in-order concatenation of the segments gives the input with whitespace deleted: only whitespace is lost and nothing is reordered. |
| Chunker.ShortLineStaysWhole | bot.js:464-475 | A line within the limit that is not blank occurs, trimmed, contiguously inside one segment. |
| Chunker.LinesWithin | bot.js:439-476 | The line loop keeps every emitted segment, and the trimmed pending buffer, within the limit. |
| Chunker.LinesContent | bot.js:439-476 | The line loop keeps, in order, the visible characters of every line it has consumed. |
| Chunker.LinesClean | bot.js:439-476 | The line loop only emits non-empty, trimmed segments. |
| Chunker.LineStepContent | bot.js:439-476 | One step of the line loop adds exactly the visible characters of its line, after those already emitted or pending. |
| Chunker.LineStepPlaces | bot.js:464-475 | One step of the line loop on a non-blank line within the limit places the trimmed line whole in a segment or the buffer. |
| Chunker.LongLineContent | bot.js:441-463 | Processing a long line loses only whitespace: the visible characters of the line follow those already emitted or pending. |
| Chunker.FlushContent | bot.js:441-445 | Saving the pending buffer before a long line loses only whitespace, and whatever stays pending is blank. |
| Chunker.Emit | bot.js:478-480 | A buffer that is all whitespace is dropped; any other buffer is pushed trimmed. |
| Chunker.Deliver | bot.js:399-421 | A message within the 4096-character transport limit is sent unchanged. |
| Chunker.DeliveredPiecesFit | bot.js:399-421 | Every piece sent fits the 4096-character limit when no message over 4096 contains a word over 3900. The chunker's own output never has such a message: each of its segments over 4096 is one long word, which the re-split cannot shorten (see `DeliverKeepsSegments`). |
| Chunker.SegmentsKeptWhole | bot.js:430-483 | Every segment longer than the limit contains neither a space nor a line break: the loops push an over-long buffer only when it holds a single word. |
| Chunker.ResplitIsIdentity | bot.js:430-483 | Chunking any segment of `dividirMensagens(text, limit)` again with the same limit returns that segment alone. |
| Chunker.DeliverKeepsSegments | bot.js:399-421 | Delivering the segments of a reply chunked with limit 3900 sends exactly those segments, unchanged. |
| Chunker.OversizedWordSent | bot.js:399-421 | A reply that is one trimmed word of more than 4096 characters is sent as a single message of that length. |
| Chunker.DeliveredContent | bot.js:399-421 | Re-splitting before sending loses only whitespace from the messages. |
| Text.Trim | bot.js:443 | `trim` yields a string with no whitespace at either end, empty exactly when the input is all whitespace. |
| Text.JoinSplit | bot.js:437 | Joining the pieces of `split` with the separator gives the text back. |
| Text.SplitJoin | bot.js:449 | Splitting a join of separator-free pieces gives the pieces back. |
| Text.ContainsIsInfix | bot.js:903 | `includes` holds exactly when the needle occurs at some position of the message. |
| Rotation.Next | bot.js:193-199 | An empty pool gives no proxy and keeps the cursor. Otherwise the call gives `pool[cursor]` when the cursor is in range (nothing when it is stale) and leaves the cursor in range. |
| Rotation.NextIsModulo | bot.js:197 | On a non-empty pool the cursor becomes `(cursor + 1) % length`, for any cursor, stale or not. |
| Rotation.PickForRequest | bot.js:222-232 | With proxies disabled or an empty pool, the request goes direct and the cursor is untouched. Otherwise it takes the next proxy of the rotation. |
| Rotation.RunInRange | bot.js:193-199 | From an in-range cursor, call `i` gives the proxy `i` places further on, cyclically, and the cursor moves `k` places. |
| Rotation.FullCycle | bot.js:193-199 | As many calls as there are proxies, from an in-range cursor, read every index exactly once in cyclic order and return the cursor to its start, so the next call repeats the first. |
| Rotation.StaleCursorRecovers | bot.js:196-197 | With the cursor past the end of a non-empty pool, one call gives no proxy and the following calls rotate from `(cursor+1)` modulo the pool size. |
| Query.Consult | bot.js:308-351 | A query with no attempts answers nothing. Otherwise it makes one to `maxRetries` requests, all but the last failed, and an answer is the body of a last reply with status 200. |
| Query.Attempts | bot.js:313-350 | The loop's attempts, all given at once: at most `maxRetries` requests; 90 s timeout first and 60 s after; a `(k+1)*2000` ms pause after each failed attempt `k` except the last; the answer is the last reply's body when its status is 200; a stop before the budget only on a reply; one proxy pick per request. |
| Query.AttemptsFollowRotation | bot.js:313-317 | With proxies enabled, the requests go through consecutive picks of the rotation, and the cursor ends where that many `getNextProxy` calls leave it. |
| Query.AttemptsGoDirect | bot.js:222-232 | With proxies disabled, every request goes direct and the rotation cursor does not move. |
| Query.FirstReplyDecides | bot.js:322-332 | When attempts before `j` failed and attempt `j` gets a reply, exactly `j+1` requests are made, and the answer is the body if the status is 200 and nothing otherwise, whatever budget remains. |
| Query.ExhaustedRetries | bot.js:333-348 | When every attempt fails, the query answers nothing after exactly `maxRetries` requests, with the 90/60 s timeouts and the 2, 4, 6 ... s pauses and no pause after the last. |
| Query.WorstCaseWait | bot.js:313-348 | The configured timeouts and pauses of an all-failing query add up to `90 s + (m-1)*60 s + m*(m-1) s`, which is 350 s for the default of five attempts. |
| Query.AttemptsRotate | bot.js:317 | Attempt `i` goes through the pool entry `i` places after the cursor; with no more attempts than proxies, no entry is used twice. |
| ProxyPool.CodeDecides | bot.js:62-77 | The entry's country is the country code whenever the listing has one, so such a listing passes the Brazil filter exactly when its code spells `BR` or `BRAZIL` in any case, whatever its country name says. |
| ProxyPool.NameDecides | bot.js:62-77 | A listing with an empty country code falls back to its country name, and passes the Brazil filter exactly when that name spells `BR` or `BRAZIL` in any case. |
| ProxyPool.CountryCodeWins | bot.js:68-77 | A listing coded `US` but named `Brazil` is dropped, and one coded `br` but named `Argentina` is kept. |
| ProxyPool.IsBrazilianSpelling | bot.js:73-77 | The country test accepts exactly `BR` or `BRAZIL` in any mix of cases. |
| ProxyPool.KeepBrazilian | bot.js:73-77 | Every kept entry passes the country test. |
| ProxyPool.KeepBrazilianExact | bot.js:62-77 | The kept entries are exactly the listing's records at the positions whose record is Brazilian, each once and in listing order. |
| ProxyPool.SampleSize | bot.js:94 | At most ten entries are probed, and all of them when there are fewer. |
| ProxyPool.MergeProbed | bot.js:94-111 | The merged pool is no longer than the filtered pool and holds only its entries. |
| ProxyPool.MergeSelects | bot.js:94-111 | When some probe passed, the merged pool is exactly the probed entries that passed, in order, followed by every unprobed entry. |
| ProxyPool.MergeShape | bot.js:94-111 | The merged pool is an order-preserving selection of the filtered pool. It ends with the unprobed tail unchanged and is non-empty whenever the filtered pool is. |
| ProxyPool.MergeKeepsPassing | bot.js:98-107 | A probed entry whose probe passed stays in the pool. |
| ProxyPool.MergeDropsFailing | bot.js:105-107 | Once some probe passed, a probed entry whose probe failed and that is not listed twice is gone. |
| ProxyPool.MergeUnanimous | bot.js:105-111 | If no probe passed, or if all did, the filtered pool is kept whole. |
| ProxyPool.Refresh | bot.js:20-160 | A fetch with no usable listing, or an empty one, leaves the pool unchanged; any other fetch leaves only Brazilian entries. |
| ProxyPool.RefreshReplaces | bot.js:60-122 | A non-empty listing makes the pool an order-preserving selection of its Brazilian entries, empty exactly when there are none. |
| Cpf.FormatCpf | bot.js:292-294 | The formatted CPF consists of digits only and is no longer than the input. |
| Cpf.FormatCpfKeepsDigits | bot.js:292-294 | The formatted CPF is exactly the input's characters at the positions that hold a digit, each once and in order. |
| Cpf.FormatCpfFixed | bot.js:292-294 | Formatting leaves a string unchanged exactly when it is all digits, and formatting is idempotent. |
| Cpf.IsValidCpf | bot.js:297-305 | A CPF is valid exactly when its digits number eleven and are not all the same digit. |
| Cpf.ValidityIgnoresPunctuation | bot.js:297-298 | Two inputs with the same digits are both valid or both invalid. |
| Supervisor.React | bot.js:903-937 | Errors other than connectivity errors are ignored. A connectivity error reconnects after 3 s when the pool is non-empty and refetches after 5 s when it is empty. |
| Supervisor.ConnectivityErrorSpelled | bot.js:903 | An error counts as a connectivity error exactly when `ETIMEDOUT` or `ECONNREFUSED` occurs in its message or its code is `EFATAL`. |
| Supervisor.RestartAfter | bot.js:906-937 | `iniciar` runs again only after a connectivity error. It always runs again when the pool was empty. With a non-empty pool it runs again exactly when the reconnection throws. The armed timers add up to 13 s (3 s + 10 s) after a reconnection that throws. After a refetch they add up to 5 s when proxies were found and 35 s (5 s + 30 s) when none were; the time the awaited fetch takes comes on top of that. |

## Left out

- Network I/O: the axios requests, the Telegram client, and the proxy agents and proxy URLs. Their results are inputs, namely the query oracle, the `Fetch` value and the probe verdicts.
- The probe itself (`testarProxy`, bot.js:163-190), beyond its verdict.
- Timers: `setTimeout`, `setInterval` and the 200 ms spacing between sent messages. Delays appear only as returned numbers.
- All console logging, and the `process.env` configuration and side effects, including the `USE_PROXY` parsing. Proxies being enabled is a parameter.
- `formatarResposta` (bot.js:486-740). It is presentation templating over untyped JSON, and the model only takes its output as the list of messages to deliver.
- The startup sequence of `iniciar`: the second fetch after 5 s, the 30-minute refresh interval, and handler registration.
- Concurrency. Queries run one at a time against a fixed pool, so a refresh or another query moving the shared cursor during a query is not modelled.
- `deploy-portainer.js` and the `test-*.js` scripts are not part of this model.
- Chunker.SplitMessages and Text: lengths count Unicode characters, whereas JavaScript counts UTF-16 code units, so the two differ for characters outside the Basic Multilingual Plane.
- Text.ToUpper: only the mappings that can produce an ASCII letter are modelled. These are `a`-`z`, dotless `ı` to `I` and long `ſ` to `S`. Every other character is left unchanged, which is all the comparison with `BR`/`BRAZIL` can see, apart from multi-character expansions such as `ß` to `SS`, which are not modelled.
- ProxyPool.Listing: a missing or `null` field is the empty string, and the port is a number.
- Query.Outcome: the reply's `status` is an integer. A non-numeric status is just another status other than 200. A thrown request is one outcome whatever its cause, and the body of a successful reply is opaque.
- ProxyPool.FromListing: the `url` field built at bot.js:69 is not kept. It is derived from the host, port and credentials, which the entry does hold.
- Supervisor.RestartAfter: the returned delay is only the sum of the armed timers (3 s + 10 s, 5 s, or 5 s + 30 s). It does not include the time taken by the awaited `buscarProxiesWebShare` at bot.js:928. That fetch can take up to two 30 s listing requests (bot.js:32-58) and ten sequential 8 s probes (bot.js:96-101). Its duration depends on the network, which is not modelled.
- Supervisor.PollingError: the message is a string. An error without a message, which makes the handler itself throw, is not modelled.
