# USDT payment-session bot: a Dafny model

This project models the payment-session engine of a Telegram bot. The bot sells USDT for
Vietnamese dong (VND). A user picks an exchange (Binance, Bybit or Gate) and types a VND
amount. The bot converts the amount to USDT at its current rate and rounds it up to the cent.
It then freezes the session and polls the exchange's deposit history every few seconds for up
to three minutes. It looks for an `'ok'` deposit within 2% of the expected amount. When it
finds one, it records the VND amount in the chat's daily ledger. In every case the session is
cleared at the end.

The model covers the handler class of `src/index.js` and the older handler of `src/test.js`:

- `Numbers`: JavaScript numbers as `NaN | +Infinity | -Infinity | Finite(real)`, with
  truthiness, `||` and division. It also holds input normalisation (`_toNormalNumber`),
  rounding up to the cent (`_roundUpSecondDecimal`) and the VND→USDT conversion.
- `Matching`: the deposit matcher `_findMatchingElement`, which takes the first record in
  list order inside the band [0.98·t, 1.02·t].
- `Polling`: one pass of the `_checkBalance` loop as a pure step rule (`StepStop`), and the
  loop's whole run as `FirstStop` over a sequence of ticks. Each tick carries the elapsed
  time, what the exchange call gave (a list, nothing, or a throw), and whether a
  clear-session ran during the preceding sleep.
- `Ledger`: `ctx.session.balances` as an ordered list of `{exchange, total, transactions}`
  entries, in the order `Object.entries` visits them. That order is insertion order for keys
  that do not look like array indices, which holds for the configured exchange names. It holds reset, the two record
  operations (index.js adds to the total; test.js only appends), the daily aggregate and the
  per-exchange report. The chat session object is the class `ChatSession`.
- `Params`: the `/set key=value …` parser, `split` / `reduce`, shared by both files.
- `Replies`: the messages the handlers send, as tags.
- `Bot`: the class `BotHandler` of index.js. Its fields are `currentExchange`,
  `sessionFreezed` and `price`, and its methods update them in place. The polling loop
  `CheckBalance` is a `while` loop proved against `FirstStop`. The daily aggregate
  `CheckDailyBalance` is a `for` loop proved against `DailyReport`.
- `LegacyBot`: the class of test.js. It records at session start with an append-only ledger.

The values the program reads from outside are parameters:
- `Number(text)` on the user's message arrives as a `JsNumber`, and `/set`'s string-to-number
  conversion is the function parameter `numberOf`.
- Timestamps are opaque strings.
- Each exchange call arrives as a `Fetch` value inside a tick.

The handler state is one object shared by every chat, as in the source: `currentExchange`,
`sessionFreezed` and `price` are not per user.

The model follows the code as written, including where it may not do what was intended:
- A thrown exchange call ends the polling loop at once, because the `try` encloses the whole
  `while` (`Polling.ThrowingGatewayStopsAtFirstPoll`). It is not retried until the deadline.
- On a match the ledger records the fiat input `originUserInputValue`, not the USDT amount.
- The daily aggregate skips an entry whose total is 0. So recording 0 leaves the report at
  "nothing on balance sheet" (`Ledger.RecordAfterReset`).
- `/set` changes the rate even while a session is frozen.

## Model

| member | source | states |
|---|---|---|
| Numbers.ToNormalNumber | src/index.js:185-191 | null exactly for NaN; 0 for -Infinity and anything below 0.0001, negatives included; +Infinity kept; any other value kept to within 0.000005 and still at least 0.0001 |
| Numbers.AcceptedAmounts | src/index.js:185-191 | a normalised input is truthy exactly when the raw number is +Infinity or at least 0.0001, and every truthy one is positive |
| Numbers.WholeAmountsKept | src/index.js:185-191 | a whole amount of at least 1 is unchanged by normalisation |
| Numbers.RoundUpSecondDecimal | src/index.js:307-311 | null exactly for non-finite input; otherwise the result is at least x, below x + 0.01, and a whole number of cents |
| Numbers.RoundUpIsLeastCent | src/index.js:307-311 | the result is the least whole number of cents that is at least x |
| Numbers.ConvertedValue | src/index.js:98 | for a finite amount and a finite non-zero rate the quote is the amount over the rate rounded up to the cent, so for positive ones it is at least amount/rate and less than 0.01 above it; a falsy rate falls back to 25700; a positive quote implies a finite amount |
| Numbers.ConversionExamples | src/index.js:98 | 2 570 000 VND at the default rate is 100 USDT, and also at rate 0 through the fallback; 100 at rate 3 is 33.34; +Infinity gives null; a rate of +Infinity gives 0 |
| Matching.FirstQualifying | src/index.js:89-94 | `find` stops at the first qualifying index, and no earlier record qualifies |
| Matching.FindMatchingElement | src/index.js:89-94 | the result is `'ok'`, inside the band, and in the list with no qualifying record before it; none exactly when no record qualifies |
| Matching.BandAroundTarget | src/index.js:89-94 | for t > 0 the band holds t itself and 0.99·t, but not 0.97·t or 1.03·t |
| Matching.NonOkNeverMatched | src/index.js:89-94 | a record that is not `'ok'` is never matched |
| Matching.TruthyMatchNeedsPositiveTarget | src/index.js:89-94 | a match with a non-zero amount needs a positive target, and then its amount is positive |
| Matching.FirstNotClosest | src/index.js:93 | of two qualifying deposits the earlier wins even when the later is exact; a pending record is skipped |
| Polling.GetDepositOrder | src/index.js:82-87 | a failure exactly when the exchange call throws; a null result is read as the empty list, so no match; a listed result gives `_findMatchingElement`'s first qualifying record; a match whenever one exists |
| Polling.StepStop | src/index.js:61-73 | one pass continues exactly when time remains, the flag is set, the call returns and there is no truthy match; the deadline and the cleared flag are told apart; a pass in time, with the flag set, whose call gives a truthy match stops as found, exactly then, with that match's amount; a found amount is positive, came from an `'ok'` record, and needs a positive target |
| Polling.FirstStopFrom | src/index.js:57-80 | the loop stops at a tick whose step stops, and every earlier step continues, with the flag cleared from the first cancelled tick on |
| Polling.FirstStop | src/index.js:57-80 | the loop stops within the ticks given, and a payment is found only for a positive target |
| Polling.NoPollAfterClear | src/index.js:61 | a clear-session during a sleep stops the loop at the next test at the latest, without a poll there |
| Polling.PassesBeforeStop | src/index.js:61-73 | every pass before the stopping one ran in time, with the flag set, and its call did not throw |
| Polling.ThrowingGatewayStopsAtFirstPoll | src/index.js:60-76 | a throwing exchange ends the loop at its first poll |
| Polling.QuietGatewayTimesOut | src/index.js:61-78 | with no clear, no throw and no truthy match (an empty or null list, or no qualifying record) at any pass, the loop ends at the deadline and not earlier |
| Polling.AtMostThirtySixPolls | src/index.js:61-72 | with at least 5000 ms per pass, the loop stops within 180000/5000 = 36 passes |
| Ledger.IndexOf | src/index.js:175 | the position of the first entry under a key; none exactly when there is no such entry |
| Ledger.Put | src/index.js:162-165 | `obj[platform] = …` replaces the existing entry under the key with the new one, in place, or appends the new one; other entries are kept and the keys stay distinct |
| Ledger.Fresh | src/index.js:160-170 | the reset ledger has distinct keys, every entry is `{0, []}`, and there are no more entries than configured names |
| Ledger.FreshHasEveryExchange | src/index.js:161-167 | every configured exchange has an entry after a reset |
| Ledger.FreshOnlyConfigured | src/index.js:161-167 | every entry after a reset belongs to a configured exchange |
| Ledger.FreshFollowsConfiguredOrder | src/index.js:161-167 | with distinct configured names, the entries follow the configured order one for one |
| Ledger.Credit | src/index.js:175-182 | adds the value to the current exchange's total and appends exactly one transaction; every other entry is unchanged; fails exactly when the key is absent |
| Ledger.Append | src/test.js:70-79 | appends exactly one `{amount, time}` to the current exchange; no total and no other entry changes; fails exactly when the key is absent |
| Ledger.AppendKeepsReportEmpty | src/test.js:70-79 | the append-only ledger keeps all-zero totals at zero, so the aggregate keeps reporting nothing |
| Ledger.Initialised | src/index.js:173 | stored balances are used as they are; absent ones become a reset ledger with distinct keys, every entry empty, and an entry for every configured exchange |
| Ledger.CountedTotal | src/index.js:148-150 | the accumulated total is non-zero only when some entry counts, and is never negative when no entry's total is |
| Ledger.CountedTransactions | src/index.js:148-151 | the collected transactions are every transaction of a counted entry and no other |
| Ledger.AggregateConcat | src/index.js:148-153 | the aggregate of two runs of entries is the sum of totals and the concatenation of transactions, in order |
| Ledger.UncountedAggregateEmpty | src/index.js:149 | entries with a zero total or no transactions contribute nothing |
| Ledger.CreateBalanceStr | src/index.js:120-127 | null exactly when the total is 0 or the list is empty; otherwise the message carries both |
| Ledger.DailyReport | src/index.js:143-158 | "nothing on balance sheet" exactly when the aggregated total is 0 or no transaction was collected; otherwise the message built from them |
| Ledger.ResetReportsNothing | src/index.js:249 | right after `/clear_balances`, check-balance reports nothing |
| Ledger.SingleCountedEntry | src/index.js:148-153 | when only one entry counts, the aggregate is that entry |
| Ledger.RecordAfterReset | src/index.js:172-183 | after a reset, one record of a non-zero value reports exactly that value and one transaction; recording 0 still reports nothing |
| Ledger.ReportOf | src/index.js:132-134 | a message for an exchange exactly when its entry exists with a non-zero total and at least one transaction; the message carries that total, those transactions and the display name |
| Ledger.ReportsFor | src/index.js:129-141 | the message of every named exchange that has one is sent, and nothing else; at most one message per name, and of any two messages the earlier belongs to an earlier name |
| Ledger.Somes | src/index.js:136-140 | the non-null messages are sent and the null ones skipped: every present value is sent, and only present values |
| Ledger.SomesInOrder | src/index.js:136-140 | the messages are sent in the order of the lines: of two sent values, the earlier comes from an earlier line |
| Ledger.PrivateReports | src/index.js:129-141 | `/get_balance` sends a message for each of Binance, Bybit and Gate whose entry has a non-zero total and transactions, and no other, in that order, never two for the same exchange |
| Ledger.ResetHasNoPrivateReports | src/index.js:129-141 | right after a reset `/get_balance` sends nothing |
| Ledger.ChatSession.constructor | src/index.js:173 | a new session has no balances |
| Params.Split | src/index.js:253 | `split` always gives at least one piece |
| Params.FirstIndex | src/index.js:255 | the position of the first separator: it holds the separator and nothing before it does |
| Params.SplitPieces | src/index.js:253 | no piece holds the separator; one piece exactly when the separator is absent; the first piece is a prefix of the text that runs up to the first separator or the end; the second starts right after that separator and runs up to the next one or the end |
| Params.JoinSplit | src/index.js:253 | joining the pieces with the separator gives back the text |
| Params.SplitPrefix | src/index.js:253 | text without the separator glued to the front extends the first piece |
| Params.SplitJoin | src/index.js:253 | splitting joined separator-free pieces gives back the pieces |
| Params.ParseParam | src/index.js:255 | the key is the text before the first `=`; the value is undefined exactly when there is no `=`, otherwise the text after the first `=` up to the next `=` or the end |
| Params.Tokens | src/index.js:253 | the parameters are space-free words, and there are none exactly when the message has no space |
| Params.Collect | src/index.js:254-258 | the last token's key is bound |
| Params.CollectConcat | src/index.js:254-258 | the fold over two runs of tokens is the right-biased union, so later keys overwrite earlier ones |
| Params.CollectValues | src/index.js:254-258 | every bound value comes from a token with that key |
| Params.VndArgument | src/index.js:254-260 | there is an argument exactly when the fold's `vnd` entry is a non-empty string, and then it is that entry |
| Params.VndArgumentFromWord | src/test.js:110-117 | the argument is the value of one of the message's own `vnd=` words, without a space or `=` |
| Params.LastVndWins | src/test.js:110-117 | a final `vnd=v` word sets the argument to v, whatever came before |
| Bot.BotHandler.constructor | src/index.js:43-49 | no exchange, not frozen, the rate at 25700 |
| Bot.BotHandler.ClearSession | src/index.js:115-118 | exchange null and not frozen; the rate is kept |
| Bot.BotHandler.InitDailyBalances | src/index.js:160-170 | the session's balances become the reset ledger for the configured exchanges |
| Bot.BotHandler.SetDailyBalances | src/index.js:172-183 | initialise absent balances, then credit the current exchange; on an absent key only the initialisation remains and the write reports failure |
| Bot.BotHandler.CheckDailyBalance | src/index.js:143-158 | the accumulating loop produces exactly the daily report of the session's balances |
| Bot.BotHandler.HandleAction | src/index.js:210-230 | the language, clear-session, clear-balance-prompt and check-balance markers are served before the freeze test, and clear-session clears even while frozen; any other value is refused while frozen with no change, and otherwise becomes the exchange |
| Bot.BotHandler.OnSelect | src/index.js:263-268 | an empty payload ends in an error with no change; any other payload has exactly `_handleAction`'s effect: the four markers served even while frozen, clear-session clearing exchange and freeze, and any other value refused while frozen or made the exchange |
| Bot.BotHandler.SetVndValue | src/index.js:232-238 | a normalised rate that is null or 0 is refused and the price kept; any other becomes the price; the rate only changes to +Infinity or a value of at least 0.0001; the freeze is not consulted |
| Bot.BotHandler.OnSet | src/index.js:251-261 | without a non-empty `vnd` argument nothing happens; with one, the rate is set or refused as `_setVndValue` decides |
| Bot.BotHandler.StartSession | src/index.js:96-108 | freezes, quotes the converted amount, and hands the loop a target equal to the quote, or 0 for a null quote, and the fiat input; a positive target always comes with a finite input |
| Bot.BotHandler.OnText | src/index.js:277-287 | while frozen: "in progress" and no change; no exchange: "select exchange" and no change; an invalid amount: "invalid amount" and no change; a session starts exactly when not frozen, with an exchange and a truthy normalised amount |
| Bot.BotHandler.CheckBalance | src/index.js:57-80 | the loop stops where `FirstStop` says; a found payment credits the fiat input once to the exchange selected at entry and replies "balance changed"; any other stop leaves the ledger alone and replies with the cancellation; exchange and freeze are cleared on every exit |
| Bot.PaymentScenario | src/index.js:57-108 | picking binance and sending 2 570 000 VND, then finding a deposit of 99.5 USDT, pays and reports that one transaction |
| LegacyBot.LegacyHandler.constructor | src/test.js:42-48 | no exchange, not frozen, the rate at 25700 |
| LegacyBot.LegacyHandler.SetDailyBalances | src/test.js:70-79 | initialise absent balances, then append one transaction to the current exchange, leaving every total alone |
| LegacyBot.LegacyHandler.StartSession | src/test.js:55-68 | freezes, quotes the amount converted at the rate or at 25700 for a falsy rate, and appends the fiat input to the ledger before any poll |
| LegacyBot.LegacyHandler.OnText | src/test.js:126-142 | while frozen: "session running" and no change; no exchange: "select exchange" and no change; a session starts exactly when not frozen, with an exchange and a truthy normalised amount, and then appends the input, or leaves the initialised ledger when the exchange has no entry; otherwise "invalid amount" and no change |

## Left out

- Telegram transport is not modelled: Telegraf, inline keyboards, `_printMenu`, `/start`,
  `/menu`, the `SET_LANG_` action and i18next translation. Replies are tags. The language
  stored in the session is not modelled.
- The photo sent at session start is not modelled. If the asset file is missing,
  `replyWithPhoto` rejects before `_checkBalance` is called, and the session stays frozen.
  The model always reaches the polling request.
- The order of replies inside one handler is not modelled; each handler returns its final tag.
- Concurrency is not modelled. The polling task is not awaited, and other handlers can run
  during its sleeps and while it awaits the exchange call (index.js:62). The model runs each
  handler atomically. The only interleaving it keeps is a clear-session during a sleep
  (`Tick.cancelled`), which clears exchange and freeze before the next loop test. A
  clear-session during the awaited exchange call is not modelled: if that call then finds the
  deposit, the ledger write looks up the entry under `null` and throws, so the user is told the
  session was cancelled for lack of payment and nothing is recorded. A `/set`, an exchange
  choice or a ledger write by another handler mid-poll is not modelled either.
- Bot.BotHandler.CheckBalance: credits the exchange selected when the loop started, since
  nothing but a clear can change `currentExchange` during the modelled loop.
- Time is abstract. `Date.now()`, `_sleep` and the Luxon timestamp are a per-tick elapsed
  counter and an opaque string. The loop is given ticks whose last one reaches the
  three-minute limit.
- The exchange clients are inputs (`Fetch`), not modelled code: `_setupExchanges`, the ccxt
  calls, the `src/services/*.js` wrappers and their signatures. So is the 3-minute
  `since` window of `fetchDeposits`. `_getUSDTBalance` is unused and not modelled.
- Floating point is not modelled: amounts and rates are exact reals. `toFixed(5)` is rounding
  half up at five decimals on reals. Signed zero is not distinguished. `Number()` on a string
  is a parameter.
- `_capitalizeFirstLetter` only shapes reply text and is not modelled.
- Session persistence (`telegraf-session-local`, the JSON file) is not modelled; a session
  is an in-memory object.
- The `priceChanged` reply passes the price to `ctx.reply` instead of the translation, so the
  message never shows it. The model's tag carries the price regardless.
- The test.js class calls `_toNormalNumber`, `_roundUpSecondDecimal`, `_initDailyBalances`,
  `_handleAction`, `_setVndValue`, `_checkBalance` and `_checkDailyBalancePrivate`, but does
  not define them. As written, its text handler fails on the first line. The model gives it
  the index.js definitions of the first three. The session it starts is never polled or
  cleared, as calling the undefined `_checkBalance` leaves it. Its action, `/set` and
  `/get_balance` handlers are not modelled beyond the shared parser `Params.VndArgument`,
  since they hand over to functions the file lacks.
- `launch` and the signal handlers are process plumbing and are not modelled.
