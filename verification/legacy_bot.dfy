/**
 * The older handler of test.js. It shares the state of index.js's handler but records the
 * fiat amount in the ledger when the session starts, appending without touching any total,
 * and replies 'sessionRunning' to text while frozen. Its `/set` parser is `Params.VndArgument`.
 * The class calls helpers it does not define (`_toNormalNumber`, `_roundUpSecondDecimal`,
 * `_initDailyBalances`, `_checkBalance`); the model gives it index.js's.
 */
module LegacyBot {
  import opened Wrappers
  import opened Numbers
  import opened Ledger
  import opened Replies

  class LegacyHandler {
    const exchanges: seq<string>
    var currentExchange: Option<string>
    var sessionFreezed: bool
    var price: JsNumber

    /** A frozen session always has an exchange. */
    ghost predicate Valid()
      reads this
    {
      sessionFreezed ==> ExchangeSelected()
    }

    /** `this.currentExchange` is truthy. */
    predicate ExchangeSelected()
      reads this
    {
      currentExchange.Some? && currentExchange.value != ""
    }

    /** The property key `balances[this.currentExchange]` looks up. */
    function ExchangeKey(): string
      reads this
    {
      if currentExchange.Some? then currentExchange.value else "null"
    }

    constructor (exchanges: seq<string>)
      ensures Valid()
      ensures this.exchanges == exchanges
      ensures currentExchange == None && !sessionFreezed && price == Finite(VND_PRICE)
    {
      this.exchanges := exchanges;
      currentExchange := None;
      sessionFreezed := false;
      price := Finite(VND_PRICE);
    }

    /**
     * `_setDailyBalances(ctx, value)`: initialise absent balances, then push one
     * `{ amount: value, time }` to the current exchange; totals never change. `ok` is false
     * when the entry does not exist (the TypeError), leaving only the initialisation.
     */
    method SetDailyBalances(ctx: ChatSession, value: JsNumber, time: string) returns (ok: bool)
      requires ctx.Valid()
      modifies ctx
      ensures ctx.Valid()
      ensures var base := Initialised(old(ctx.balances), exchanges);
              var appended := Append(base, ExchangeKey(), value, time);
              && ok == appended.Some?
              && ctx.balances == Some(if appended.Some? then appended.value else base)
    {
      if ctx.balances.None? {
        ctx.balances := Some(Fresh(exchanges));
      }
      var appended := Append(ctx.balances.value, ExchangeKey(), value, time);
      if appended.Some? {
        ctx.balances := appended;
        ok := true;
      } else {
        ok := false;
      }
    }

    /**
     * `_startSession(ctx, userInput)`: freeze first, quote the converted amount, then append
     * the fiat input to the ledger before any poll. The session stays frozen whatever the
     * ledger write does: nothing in this class clears it.
     */
    method StartSession(ctx: ChatSession, userInput: JsNumber, time: string) returns (reply: Reply, recorded: bool)
      requires Valid() && ExchangeSelected() && ctx.Valid()
      modifies this, ctx
      ensures Valid() && ctx.Valid() && sessionFreezed
      ensures currentExchange == old(currentExchange) && price == old(price)
      ensures reply == SessionStarted(userInput, ConvertedValue(userInput, price), SESSION_MINUTES)
      ensures var base := Initialised(old(ctx.balances), exchanges);
              var appended := Append(base, ExchangeKey(), userInput, time);
              && recorded == appended.Some?
              && ctx.balances == Some(if appended.Some? then appended.value else base)
    {
      sessionFreezed := true;
      var convertedValue := ConvertedValue(userInput, price);
      reply := SessionStarted(userInput, convertedValue, SESSION_MINUTES);
      recorded := SetDailyBalances(ctx, userInput, time);
    }

    /**
     * The text handler, given `Number(text)`: 'sessionRunning' while frozen, 'selectExchange'
     * without an exchange, a session for a usable normalised amount, 'invalidAmount'
     * otherwise. Only a started session changes any state.
     */
    method OnText(ctx: ChatSession, input: JsNumber, time: string) returns (reply: Reply, started: bool)
      requires Valid() && ctx.Valid()
      modifies this, ctx
      ensures Valid() && ctx.Valid()
      ensures currentExchange == old(currentExchange) && price == old(price)
      ensures started <==> !old(sessionFreezed) && old(ExchangeSelected()) && IsAmount(ToNormalNumber(input))
      ensures old(sessionFreezed) ==>
                reply == SessionRunning(SESSION_MINUTES) && unchanged(this) && unchanged(ctx)
      ensures !old(sessionFreezed) && !old(ExchangeSelected()) ==>
                reply == SelectExchange && unchanged(this) && unchanged(ctx)
      ensures !old(sessionFreezed) && old(ExchangeSelected()) && !IsAmount(ToNormalNumber(input)) ==>
                reply == InvalidAmount && unchanged(this) && unchanged(ctx)
      ensures started ==>
                var userInput := ToNormalNumber(input).value;
                var base := Initialised(old(ctx.balances), exchanges);
                var appended := Append(base, ExchangeKey(), userInput, time);
                && sessionFreezed
                && reply == SessionStarted(userInput, ConvertedValue(userInput, price), SESSION_MINUTES)
                && ctx.balances == Some(if appended.Some? then appended.value else base)
    {
      var userInput := ToNormalNumber(input);
      if sessionFreezed {
        return SessionRunning(SESSION_MINUTES), false;
      }
      if !ExchangeSelected() {
        return SelectExchange, false;
      }
      if IsAmount(userInput) {
        var recorded;
        reply, recorded := StartSession(ctx, userInput.value, time);
        return reply, true;
      }
      reply, started := InvalidAmount, false;
    }
  }
}
