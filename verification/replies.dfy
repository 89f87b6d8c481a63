/** The replies the handlers send, as tags standing for the translated messages. */
module Replies {
  import opened Wrappers
  import opened Numbers
  import opened Ledger
  import Polling

  /** `Math.floor(MAX_CHECKING_DURATION / 60000)`: the minutes quoted to the user. */
  const SESSION_MINUTES: nat := Polling.MAX_CHECKING_DURATION / 60000

  datatype Reply =
    | NoReply
    | HandlerError                     // the handler threw before replying
    | SelectLanguage                   // the language keyboard
    | ClearSessionSuccess
    | ClearDailyBalancePrompt
    | Balance(report: BalanceReport)   // 'nothingOnBalanceSheet' or 'dailyBalance'
    | SessionStillRunning              // exchange choice refused while frozen
    | AmountRequest(exchange: string)
    | SessionInProgress(minutes: nat)  // text refused while frozen (index.js)
    | SessionRunning(minutes: nat)     // text refused while frozen (test.js)
    | SelectExchange
    | InvalidAmount
    | SessionStarted(amount: JsNumber, convertedValue: Option<real>, minutes: nat)
    | PriceChanged(price: JsNumber)
    | BalanceChanged(difference: real)
    | CancelSessionDueToNoPayment
}
