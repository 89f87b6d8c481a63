/**
 * The payment-session engine of index.js: the `BotHandler` singleton whose fields
 * `currentExchange`, `sessionFreezed` and `price` every handler shares (they are not per
 * user), the polling loop `_checkBalance`, and the handlers that update the chat session's
 * ledger.
 */
module Bot {
  import opened Wrappers
  import opened Numbers
  import opened Matching
  import opened Polling
  import opened Ledger
  import opened Params
  import opened Replies

  /** `buttonsMarker`: the action payloads handled before the freeze check. */
  const CHECK_BALANCE_MARKER: string := "0_button"
  const CLEAR_BALANCE_PROMPT_MARKER: string := "1_button"
  const CLEAR_SESSION_MARKER: string := "2_button"
  const LANGUAGE_MARKER: string := "3_button"

  predicate IsMarker(value: string) {
    value == CHECK_BALANCE_MARKER || value == CLEAR_BALANCE_PROMPT_MARKER
    || value == CLEAR_SESSION_MARKER || value == LANGUAGE_MARKER
  }

  /** A usable rate: +Infinity or a positive finite number. */
  predicate PositivePrice(p: JsNumber) {
    p.PosInf? || (p.Finite? && p.value > 0.0)
  }

  class BotHandler {
    /** The configured exchanges, in order. */
    const exchanges: seq<string>
    /** The exchange chosen by the last accepted action (null after a clear). */
    var currentExchange: Option<string>
    /** Set while a payment session is being polled. */
    var sessionFreezed: bool
    /** VND per USDT. */
    var price: JsNumber

    /** The rate stays positive, and a frozen session always has an exchange. */
    ghost predicate Valid()
      reads this
    {
      PositivePrice(price) && (sessionFreezed ==> ExchangeSelected())
    }

    /** `this.currentExchange` is truthy. */
    predicate ExchangeSelected()
      reads this
    {
      currentExchange.Some? && currentExchange.value != ""
    }

    /** The property key `balances[this.currentExchange]` looks up (null converts to "null"). */
    function ExchangeKey(): string
      reads this
    {
      if currentExchange.Some? then currentExchange.value else "null"
    }

    constructor (exchanges: seq<string>)
      ensures Valid()
      ensures this.exchanges == exchanges
      ensures currentExchange == None && !sessionFreezed && price == Finite(VND_PRICE)
    {
      this.exchanges := exchanges;
      currentExchange := None;
      sessionFreezed := false;
      price := Finite(VND_PRICE);
    }

    /** `_clearSession`: forget the exchange and unfreeze. */
    method ClearSession()
      requires Valid()
      modifies this
      ensures Valid()
      ensures currentExchange == None && !sessionFreezed && price == old(price)
    {
      currentExchange := None;
      sessionFreezed := false;
    }

    /** `_initDailyBalances`, also the whole of `/clear_balances`: every exchange reset to `{ 0, [] }`. */
    method InitDailyBalances(ctx: ChatSession)
      modifies ctx
      ensures ctx.Valid()
      ensures ctx.balances == Some(Fresh(exchanges))
    {
      ctx.balances := Some(Fresh(exchanges));
    }

    /**
     * `_setDailyBalances(ctx, value)`: initialise absent balances, then add `value` to the
     * current exchange's total and push one transaction; `ok` is false when that entry does
     * not exist (the TypeError), in which case only the initialisation has happened.
     */
    method SetDailyBalances(ctx: ChatSession, value: real, time: string) returns (ok: bool)
      requires ctx.Valid()
      modifies ctx
      ensures ctx.Valid()
      ensures var base := Initialised(old(ctx.balances), exchanges);
              var credited := Credit(base, ExchangeKey(), value, time);
              && ok == credited.Some?
              && ctx.balances == Some(if credited.Some? then credited.value else base)
    {
      if ctx.balances.None? {
        InitDailyBalances(ctx);
      }
      var credited := Credit(ctx.balances.value, ExchangeKey(), value, time);
      if credited.Some? {
        ctx.balances := credited;
        ok := true;
      } else {
        ok := false;
      }
    }

    /**
     * `_checkDailyBalance`: sum the totals and concatenate the transactions of the entries
     * with a non-zero total and a non-empty list, in entry order, and report them.
     */
    method CheckDailyBalance(ctx: ChatSession) returns (report: BalanceReport)
      ensures report == DailyReport(ctx.balances)
    {
      var accts := Entries(ctx.balances);
      var total := 0.0;
      var transactions: seq<Tx> := [];
      for i := 0 to |accts|
        invariant total == CountedTotal(accts[..i])
        invariant transactions == CountedTransactions(accts[..i])
      {
        var data := accts[i];
        if data.total != 0.0 && |data.transactions| > 0 {
          total := total + data.total;
          transactions := transactions + data.transactions;
        }
        assert accts[..i + 1][..i] == accts[..i];
      }
      assert accts[..|accts|] == accts;
      if total == 0.0 || |transactions| == 0 {
        report := NothingOnBalanceSheet;
      } else {
        report := Daily(BalanceStr("", total, transactions));
      }
    }

    /**
     * `_handleAction(value, ctx)`: the language, clear-session, clear-balance-prompt and
     * check-balance markers are served even while frozen; any other value is an exchange
     * choice, refused while frozen.
     */
    method HandleAction(ctx: ChatSession, value: string) returns (reply: Reply)
      requires Valid()
      modifies this
      ensures Valid() && price == old(price)
      ensures value == LANGUAGE_MARKER ==> reply == SelectLanguage && unchanged(this)
      ensures value == CLEAR_SESSION_MARKER ==>
                reply == ClearSessionSuccess && currentExchange == None && !sessionFreezed
      ensures value == CLEAR_BALANCE_PROMPT_MARKER ==> reply == ClearDailyBalancePrompt && unchanged(this)
      ensures value == CHECK_BALANCE_MARKER ==> reply == Balance(DailyReport(ctx.balances)) && unchanged(this)
      ensures !IsMarker(value) && old(sessionFreezed) ==> reply == SessionStillRunning && unchanged(this)
      ensures !IsMarker(value) && !old(sessionFreezed) ==>
                reply == AmountRequest(value) && currentExchange == Some(value) && !sessionFreezed
    {
      if value == LANGUAGE_MARKER {
        return SelectLanguage;
      }
      if value == CLEAR_SESSION_MARKER {
        ClearSession();
        return ClearSessionSuccess;
      }
      if value == CLEAR_BALANCE_PROMPT_MARKER {
        return ClearDailyBalancePrompt;
      }
      if value == CHECK_BALANCE_MARKER {
        var report := CheckDailyBalance(ctx);
        return Balance(report);
      }
      if sessionFreezed {
        return SessionStillRunning;
      }
      currentExchange := Some(value);
      reply := AmountRequest(value);
    }

    /**
     * The `SELECT_` action handler, given the payload with its prefix removed: an empty
     * payload ends in a ReferenceError (`t` is not defined in this file), anything else goes
     * to `_handleAction`.
     */
    method OnSelect(ctx: ChatSession, value: string) returns (reply: Reply)
      requires Valid()
      modifies this
      ensures Valid() && price == old(price)
      ensures value == "" ==> reply == HandlerError && unchanged(this)
      ensures value == LANGUAGE_MARKER ==> reply == SelectLanguage && unchanged(this)
      ensures value == CLEAR_SESSION_MARKER ==>
                reply == ClearSessionSuccess && currentExchange == None && !sessionFreezed
      ensures value == CLEAR_BALANCE_PROMPT_MARKER ==> reply == ClearDailyBalancePrompt && unchanged(this)
      ensures value == CHECK_BALANCE_MARKER ==> reply == Balance(DailyReport(ctx.balances)) && unchanged(this)
      ensures value != "" && !IsMarker(value) && old(sessionFreezed) ==>
                reply == SessionStillRunning && unchanged(this)
      ensures value != "" && !IsMarker(value) && !old(sessionFreezed) ==>
                reply == AmountRequest(value) && currentExchange == Some(value) && !sessionFreezed
    {
      if value == "" {
        return HandlerError;
      }
      reply := HandleAction(ctx, value);
    }

    /**
     * `_setVndValue(ctx, value)`, given `Number(value)`: a normalised rate that is 0 or null
     * (zero, negative, below 0.0001, NaN) is refused and the price kept; any other becomes
     * the price. The freeze flag is not consulted.
     */
    method SetVndValue(n: JsNumber) returns (reply: Reply)
      requires Valid()
      modifies this
      ensures Valid()
      ensures currentExchange == old(currentExchange) && sessionFreezed == old(sessionFreezed)
      ensures IsAmount(ToNormalNumber(n)) ==> price == ToNormalNumber(n).value && reply == PriceChanged(price)
      ensures !IsAmount(ToNormalNumber(n)) ==> price == old(price) && reply == InvalidAmount
      ensures price != old(price) ==> n.PosInf? || (n.Finite? && n.value >= NORMAL_MIN)
    {
      var vndValue := ToNormalNumber(n);
      AcceptedAmounts(n);
      if !IsAmount(vndValue) {
        return InvalidAmount;
      }
      price := vndValue.value;
      reply := PriceChanged(price);
    }

    /**
     * The `/set` command: `_setVndValue` is called only with a non-empty `vnd` value;
     * `numberOf` is JavaScript's `Number` on strings.
     */
    method OnSet(text: string, numberOf: string -> JsNumber) returns (reply: Reply)
      requires Valid()
      modifies this
      ensures Valid()
      ensures currentExchange == old(currentExchange) && sessionFreezed == old(sessionFreezed)
      ensures VndArgument(text).None? ==> reply == NoReply && unchanged(this)
      ensures VndArgument(text).Some? ==>
                var n := ToNormalNumber(numberOf(VndArgument(text).value));
                if IsAmount(n) then price == n.value && reply == PriceChanged(price)
                else price == old(price) && reply == InvalidAmount
    {
      var vnd := VndArgument(text);
      if vnd.Some? {
        reply := SetVndValue(numberOf(vnd.value));
      } else {
        reply := NoReply;
      }
    }

    /**
     * `_startSession(ctx, userInput)`: freeze first, then quote the amount converted at the
     * current rate; the un-awaited `_checkBalance` call is returned as the request that
     * `CheckBalance` then runs. A null converted value becomes a target of 0, as
     * `null * 0.98` does.
     */
    method StartSession(userInput: JsNumber) returns (reply: Reply, request: PollRequest)
      requires Valid() && ExchangeSelected()
      modifies this
      ensures Valid() && sessionFreezed
      ensures currentExchange == old(currentExchange) && price == old(price)
      ensures var converted := ConvertedValue(userInput, price);
              && reply == SessionStarted(userInput, converted, SESSION_MINUTES)
              && request == PollRequest(if converted.Some? then converted.value else 0.0, userInput)
      ensures request.Recordable()
    {
      sessionFreezed := true;
      var convertedValue := ConvertedValue(userInput, price);
      reply := SessionStarted(userInput, convertedValue, SESSION_MINUTES);
      request := PollRequest(if convertedValue.Some? then convertedValue.value else 0.0, userInput);
    }

    /**
     * The text handler, given `Number(text)`: refused while frozen; without an exchange it
     * asks for one; with a usable normalised amount it starts a session; otherwise it
     * reports an invalid amount. Only a started session changes state.
     */
    method OnText(input: JsNumber) returns (reply: Reply, request: Option<PollRequest>)
      requires Valid()
      modifies this
      ensures Valid()
      ensures currentExchange == old(currentExchange) && price == old(price)
      ensures old(sessionFreezed) ==>
                reply == SessionInProgress(SESSION_MINUTES) && request.None? && unchanged(this)
      ensures !old(sessionFreezed) && !old(ExchangeSelected()) ==>
                reply == SelectExchange && request.None? && unchanged(this)
      ensures !old(sessionFreezed) && old(ExchangeSelected()) && !IsAmount(ToNormalNumber(input)) ==>
                reply == InvalidAmount && request.None? && unchanged(this)
      ensures request.Some? <==>
                !old(sessionFreezed) && old(ExchangeSelected()) && IsAmount(ToNormalNumber(input))
      ensures request.Some? ==>
                && sessionFreezed
                && request.value.Recordable()
                && var userInput := ToNormalNumber(input).value;
                   var converted := ConvertedValue(userInput, price);
                   && reply == SessionStarted(userInput, converted, SESSION_MINUTES)
                   && request.value == PollRequest(if converted.Some? then converted.value else 0.0, userInput)
    {
      var userInput := ToNormalNumber(input);
      if sessionFreezed {
        return SessionInProgress(SESSION_MINUTES), None;
      }
      if !ExchangeSelected() {
        return SelectExchange, None;
      }
      if IsAmount(userInput) {
        var r;
        reply, r := StartSession(userInput.value);
        return reply, Some(r);
      }
      reply, request := InvalidAmount, None;
    }

    /**
     * `_checkBalance(ctx, userInputValue, originUserInputValue)`: poll while the clock is
     * under the limit and the session is frozen; on the first truthy matched amount record
     * the fiat input in the ledger and stop; on the deadline, a clear, a thrown exchange call
     * or a thrown ledger write send the cancellation. The session is cleared on every exit.
     */
    method CheckBalance(ctx: ChatSession, ticks: seq<Tick>, req: PollRequest) returns (outcome: Outcome, reply: Reply)
      requires Valid() && ctx.Valid()
      requires ReachesDeadline(ticks) && req.Recordable()
      modifies this, ctx
      ensures Valid() && ctx.Valid()
      ensures currentExchange == None && !sessionFreezed && price == old(price)
      ensures reply == if outcome.Paid? then BalanceChanged(outcome.amount) else CancelSessionDueToNoPayment
      ensures var (k, stop) := FirstStop(ticks, req.target, old(sessionFreezed));
              if stop.Found? then
                var base := Initialised(old(ctx.balances), exchanges);
                var credited := Credit(base, old(ExchangeKey()), req.origin.value, ticks[k].time);
                && outcome == (if credited.Some? then Paid(stop.amount) else RecordThrew(stop.amount))
                && ctx.balances == Some(if credited.Some? then credited.value else base)
              else
                outcome == NotPaid(stop) && ctx.balances == old(ctx.balances)
    {
      ghost var entry := sessionFreezed;
      outcome := NotPaid(Deadline);
      var i := 0;
      while true
        invariant 0 <= i < |ticks|
        invariant Valid() && ctx.Valid()
        invariant price == old(price) && ctx.balances == old(ctx.balances)
        invariant sessionFreezed ==> currentExchange == old(currentExchange)
        invariant FirstStopFrom(ticks, i, sessionFreezed, req.target) == FirstStop(ticks, req.target, entry)
        decreases |ticks| - i
      {
        var tick := ticks[i];
        ghost var before := sessionFreezed;
        if tick.cancelled {
          // the clear-session action ran during the preceding sleep
          ClearSession();
        }
        assert FirstStopFrom(ticks, i, before, req.target) ==
               match StepStop(tick, sessionFreezed, req.target)
               case Some(s) => (i, s)
               case None => FirstStopFrom(ticks, i + 1, sessionFreezed, req.target);
        if !(tick.elapsed < MAX_CHECKING_DURATION && sessionFreezed) {
          outcome := NotPaid(if tick.elapsed >= MAX_CHECKING_DURATION then Deadline else Unfrozen);
          break;
        }
        var deposit := GetDepositOrder(tick.fetched, req.target);
        if deposit.Failure? {
          outcome := NotPaid(GatewayThrew);
          break;
        }
        var matched := deposit.value;
        if matched.Some? && matched.value.amount != 0.0 {
          var amount := matched.value.amount;
          var ok := SetDailyBalances(ctx, req.origin.value, tick.time);
          outcome := if ok then Paid(amount) else RecordThrew(amount);
          reply := if ok then BalanceChanged(amount) else CancelSessionDueToNoPayment;
          ClearSession();
          return;
        }
        i := i + 1;
      }
      reply := CancelSessionDueToNoPayment;
      ClearSession();
    }
  }

  /**
   * One payment from start to finish: the user picks binance and sends 2 570 000 VND, which
   * quotes 100 USDT; more text is refused while the session runs; the first poll finds an
   * 'ok' deposit of 99.5 (inside the 2% band), the ledger records the fiat amount, the session
   * is cleared and check-balance reports that single transaction.
   */
  method PaymentScenario() returns (outcome: Outcome, report: BalanceReport)
    ensures outcome == Paid(99.5)
    ensures report == Daily(BalanceStr("", 2570000.0, [Tx(Finite(2570000.0), "t0")]))
  {
    var bot := new BotHandler(["binance", "bybit", "gate"]);
    var ctx := new ChatSession();
    var chosen := bot.HandleAction(ctx, "binance");
    assert bot.currentExchange == Some("binance");
    WholeAmountsKept(2570000);
    ConversionExamples();
    var started, request := bot.OnText(Finite(2570000.0));
    assert request == Some(PollRequest(100.0, Finite(2570000.0)));
    var refused, none := bot.OnText(Finite(5.0));
    assert refused == SessionInProgress(SESSION_MINUTES) && none.None?;
    var ticks := [Tick(false, 0, Listed([DepositRecord(99.5, "ok")]), "t0"),
                  Tick(false, MAX_CHECKING_DURATION, Missing, "t1")];
    assert StepStop(ticks[0], true, 100.0) == Some(Found(99.5));
    var paid;
    outcome, paid := bot.CheckBalance(ctx, ticks, request.value);
    RecordAfterReset(["binance", "bybit", "gate"], "binance", 2570000.0, "t0");
    report := bot.CheckDailyBalance(ctx);
  }
}
