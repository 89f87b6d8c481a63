/**
 * The daily-balance ledger kept in `ctx.session.balances`: one entry per exchange,
 * `{ total, transactions }`, in the order `Object.entries` lists them (insertion order).
 * The per-chat session object that holds it is the class `ChatSession`; the handler
 * methods that update it live in the handler classes.
 */
module Ledger {
  import opened Wrappers
  import opened Numbers

  /** One `{ amount, time }` transaction; the timestamp string is opaque. */
  datatype Tx = Tx(amount: JsNumber, time: string)

  /** The entry `balances[exchange] = { total, transactions }`. */
  datatype Account = Account(exchange: string, total: real, transactions: seq<Tx>)

  /** No two entries share an exchange (object keys are unique). */
  predicate DistinctKeys(accts: seq<Account>) {
    forall i, j :: 0 <= i < j < |accts| ==> accts[i].exchange != accts[j].exchange
  }

  /** The position of `balances[key]`, if the key is present. */
  function IndexOf(accts: seq<Account>, key: string): (r: Option<nat>)
    ensures r.Some? ==> r.value < |accts| && accts[r.value].exchange == key
    ensures r.Some? ==> forall j :: 0 <= j < r.value ==> accts[j].exchange != key
    ensures r.None? <==> forall j :: 0 <= j < |accts| ==> accts[j].exchange != key
  {
    if accts == [] then None
    else if accts[0].exchange == key then Some(0)
    else
      match IndexOf(accts[1..], key)
      case None => None
      case Some(i) => Some(i + 1)
  }

  /** `obj[a.exchange] = a`: replace an existing key in place, or add the key at the end. */
  function Put(accts: seq<Account>, a: Account): (r: seq<Account>)
    ensures IndexOf(accts, a.exchange).Some? ==> |r| == |accts|
    ensures IndexOf(accts, a.exchange).Some? ==> r[IndexOf(accts, a.exchange).value] == a
    ensures IndexOf(accts, a.exchange).None? ==> |r| == |accts| + 1 && r[|accts|] == a
    ensures forall i :: 0 <= i < |accts| && accts[i].exchange != a.exchange ==> r[i] == accts[i]
    ensures forall i :: 0 <= i < |r| ==> r[i] == a || (i < |accts| && r[i] == accts[i])
    ensures DistinctKeys(accts) ==> DistinctKeys(r)
  {
    match IndexOf(accts, a.exchange)
    case Some(i) => accts[i := a]
    case None => accts + [a]
  }

  /** The exchanges are listed without repetition. */
  predicate NoDuplicates(xs: seq<string>) {
    forall i, j :: 0 <= i < j < |xs| ==> xs[i] != xs[j]
  }

  /** Every entry is `{ total: 0, transactions: [] }`. */
  predicate AllEmpty(accts: seq<Account>) {
    forall i :: 0 <= i < |accts| ==> accts[i].total == 0.0 && accts[i].transactions == []
  }

  /**
   * `_initDailyBalances`: one empty entry per configured exchange, built by a fold that
   * assigns each name in turn, so a repeated name keeps its first position.
   */
  function Fresh(exchanges: seq<string>): (r: seq<Account>)
    ensures DistinctKeys(r) && AllEmpty(r)
    ensures |r| <= |exchanges|
  {
    if exchanges == [] then []
    else Put(Fresh(exchanges[..|exchanges| - 1]), Account(exchanges[|exchanges| - 1], 0.0, []))
  }

  /** Every configured exchange has an entry after a reset. */
  lemma {:induction false} FreshHasEveryExchange(exchanges: seq<string>, e: string)
    requires e in exchanges
    ensures IndexOf(Fresh(exchanges), e).Some?
  {
    var init, last := exchanges[..|exchanges| - 1], exchanges[|exchanges| - 1];
    assert exchanges == init + [last];
    var prev := Fresh(init);
    if e == last {
      var r := Put(prev, Account(last, 0.0, []));
      if IndexOf(prev, last).Some? {
        assert r[IndexOf(prev, last).value].exchange == last;
      } else {
        assert r[|prev|].exchange == last;
      }
    } else {
      FreshHasEveryExchange(init, e);
      var i := IndexOf(prev, e).value;
      assert Fresh(exchanges)[i] == prev[i];
    }
  }

  /** A reset only creates entries for configured exchanges. */
  lemma {:induction false} FreshOnlyConfigured(exchanges: seq<string>, i: nat)
    requires i < |Fresh(exchanges)|
    ensures Fresh(exchanges)[i].exchange in exchanges
  {
    var init, last := exchanges[..|exchanges| - 1], exchanges[|exchanges| - 1];
    var prev := Fresh(init);
    if Fresh(exchanges)[i] != Account(last, 0.0, []) {
      FreshOnlyConfigured(init, i);
    }
  }

  /** With the configured exchanges listed once each, the entries follow their order. */
  lemma {:induction false} FreshFollowsConfiguredOrder(exchanges: seq<string>)
    requires NoDuplicates(exchanges)
    ensures |Fresh(exchanges)| == |exchanges|
    ensures forall i :: 0 <= i < |exchanges| ==> Fresh(exchanges)[i].exchange == exchanges[i]
  {
    if exchanges != [] {
      var init := exchanges[..|exchanges| - 1];
      var last := exchanges[|exchanges| - 1];
      assert NoDuplicates(init);
      FreshFollowsConfiguredOrder(init);
      assert last !in init;
      assert IndexOf(Fresh(init), last).None?;
    }
  }

  /** The balances a record works on: the stored ones, or a fresh reset when there are none yet. */
  function Initialised(balances: Option<seq<Account>>, exchanges: seq<string>): (r: seq<Account>)
    ensures balances.Some? ==> r == balances.value
    ensures balances.None? ==> DistinctKeys(r) && AllEmpty(r)
    ensures balances.None? ==> forall e :: e in exchanges ==> IndexOf(r, e).Some?
  {
    if balances.Some? then balances.value
    else
      FreshCoversConfigured(exchanges);
      Fresh(exchanges)
  }

  /** Every configured exchange has an entry after a reset, for all of them at once. */
  lemma FreshCoversConfigured(exchanges: seq<string>)
    ensures forall e :: e in exchanges ==> IndexOf(Fresh(exchanges), e).Some?
  {
    forall e | e in exchanges
      ensures IndexOf(Fresh(exchanges), e).Some?
    {
      FreshHasEveryExchange(exchanges, e);
    }
  }

  /**
   * `_setDailyBalances` of index.js on existing balances: add `value` to the entry of `key` and
   * push one `{ amount: value, time }`; none (a TypeError) when there is no such entry.
   */
  function Credit(accts: seq<Account>, key: string, value: real, time: string): (r: Option<seq<Account>>)
    ensures r.Some? <==> IndexOf(accts, key).Some?
    ensures r.Some? ==> |r.value| == |accts|
    ensures r.Some? ==> forall i :: 0 <= i < |accts| ==> r.value[i].exchange == accts[i].exchange
    ensures r.Some? ==> forall i :: 0 <= i < |accts| && accts[i].exchange != key ==> r.value[i] == accts[i]
    ensures r.Some? && DistinctKeys(accts) ==>
              forall i :: 0 <= i < |accts| && accts[i].exchange == key ==>
                && r.value[i].total == accts[i].total + value
                && r.value[i].transactions == accts[i].transactions + [Tx(Finite(value), time)]
  {
    match IndexOf(accts, key)
    case None => None
    case Some(i) =>
      Some(accts[i := Account(key, accts[i].total + value, accts[i].transactions + [Tx(Finite(value), time)])])
  }

  /**
   * `_setDailyBalances` of test.js on existing balances: push one `{ amount: value, time }` to
   * the entry of `key`, leaving every total alone; none (a TypeError) when there is no such entry.
   */
  function Append(accts: seq<Account>, key: string, value: JsNumber, time: string): (r: Option<seq<Account>>)
    ensures r.Some? <==> IndexOf(accts, key).Some?
    ensures r.Some? ==> |r.value| == |accts|
    ensures r.Some? ==> forall i :: 0 <= i < |accts| ==> r.value[i].exchange == accts[i].exchange
    ensures r.Some? ==> forall i :: 0 <= i < |accts| ==> r.value[i].total == accts[i].total
    ensures r.Some? ==> forall i :: 0 <= i < |accts| && accts[i].exchange != key ==> r.value[i] == accts[i]
    ensures r.Some? && DistinctKeys(accts) ==>
              forall i :: 0 <= i < |accts| && accts[i].exchange == key ==>
                r.value[i].transactions == accts[i].transactions + [Tx(value, time)]
  {
    match IndexOf(accts, key)
    case None => None
    case Some(i) =>
      Some(accts[i := Account(key, accts[i].total, accts[i].transactions + [Tx(value, time)])])
  }

  /**
   * The test.js ledger never makes an entry count: on balances whose totals are all 0, such as
   * a fresh reset, appending keeps every total at 0 and the aggregate keeps reporting nothing.
   */
  lemma AppendKeepsReportEmpty(accts: seq<Account>, key: string, value: JsNumber, time: string)
    requires forall i :: 0 <= i < |accts| ==> accts[i].total == 0.0
    requires Append(accts, key, value, time).Some?
    ensures forall i :: 0 <= i < |accts| ==> Append(accts, key, value, time).value[i].total == 0.0
    ensures DailyReport(Some(Append(accts, key, value, time).value)) == NothingOnBalanceSheet
  {
    UncountedAggregateEmpty(Append(accts, key, value, time).value);
  }

  /** The entries `_checkDailyBalance` adds up: a non-zero total and at least one transaction. */
  predicate Counted(a: Account) {
    a.total != 0.0 && |a.transactions| > 0
  }

  /**
   * The `total` that `_checkDailyBalance`'s `forEach` accumulates: non-zero only when some
   * entry counts, and never negative when no total is.
   */
  function CountedTotal(accts: seq<Account>): (t: real)
    ensures t != 0.0 ==> exists i :: 0 <= i < |accts| && Counted(accts[i])
    ensures (forall i :: 0 <= i < |accts| ==> accts[i].total >= 0.0) ==> t >= 0.0
  {
    if accts == [] then 0.0
    else
      var a := accts[|accts| - 1];
      CountedTotal(accts[..|accts| - 1]) + (if Counted(a) then a.total else 0.0)
  }

  /**
   * The `transactions` that `_checkDailyBalance`'s `forEach` concatenates, in entry order:
   * every transaction of a counted entry, and no other.
   */
  function CountedTransactions(accts: seq<Account>): (r: seq<Tx>)
    ensures forall i, x :: 0 <= i < |accts| && Counted(accts[i]) && x in accts[i].transactions ==> x in r
    ensures forall x :: x in r ==> exists i :: 0 <= i < |accts| && Counted(accts[i]) && x in accts[i].transactions
  {
    if accts == [] then []
    else
      var a := accts[|accts| - 1];
      CountedTransactions(accts[..|accts| - 1]) + (if Counted(a) then a.transactions else [])
  }

  /** The aggregate of a ledger split in two is the sum of the totals and the concatenation of the lists. */
  lemma {:induction false} AggregateConcat(a: seq<Account>, b: seq<Account>)
    ensures CountedTotal(a + b) == CountedTotal(a) + CountedTotal(b)
    ensures CountedTransactions(a + b) == CountedTransactions(a) + CountedTransactions(b)
  {
    if b == [] {
      assert a + b == a;
    } else {
      var b', x := b[..|b| - 1], b[|b| - 1];
      var ab := a + b;
      assert ab[..|ab| - 1] == a + b' && ab[|ab| - 1] == x;
      AggregateConcat(a, b');
      var xs := if Counted(x) then x.transactions else [];
      assert CountedTransactions(ab) == CountedTransactions(a + b') + xs;
      assert CountedTransactions(b) == CountedTransactions(b') + xs;
      assert CountedTransactions(a) + CountedTransactions(b') + xs
          == CountedTransactions(a) + (CountedTransactions(b') + xs);
    }
  }

  /** A ledger with no counted entry aggregates to nothing. */
  lemma {:induction false} UncountedAggregateEmpty(accts: seq<Account>)
    requires forall i :: 0 <= i < |accts| ==> !Counted(accts[i])
    ensures CountedTotal(accts) == 0.0 && CountedTransactions(accts) == []
  {
    if accts != [] {
      UncountedAggregateEmpty(accts[..|accts| - 1]);
    }
  }

  /** The message `_createBalanceStr` formats, kept as its content. */
  datatype BalanceStr = BalanceStr(via: string, total: real, transactions: seq<Tx>)

  /** `_createBalanceStr({ total, transactions }, exchangeName)`: null when the total is 0 or the list is empty. */
  function CreateBalanceStr(total: real, transactions: seq<Tx>, exchangeName: string): (r: Option<BalanceStr>)
    ensures r.None? <==> total == 0.0 || transactions == []
    ensures r.Some? ==> r.value.total == total && r.value.transactions == transactions
  {
    if total == 0.0 || |transactions| == 0 then None
    else Some(BalanceStr(exchangeName, total, transactions))
  }

  /** What the check-balance action replies. */
  datatype BalanceReport = NothingOnBalanceSheet | Daily(message: BalanceStr)

  /** The entries of `ctx?.session?.balances || {}`. */
  function Entries(balances: Option<seq<Account>>): seq<Account> {
    if balances.Some? then balances.value else []
  }

  /**
   * `_checkDailyBalance`: 'nothing on balance sheet' when the accumulated total is 0 or no
   * transaction was collected, otherwise the message `_createBalanceStr` builds from them.
   */
  function DailyReport(balances: Option<seq<Account>>): (r: BalanceReport)
    ensures r.NothingOnBalanceSheet? <==>
              CountedTotal(Entries(balances)) == 0.0 || CountedTransactions(Entries(balances)) == []
    ensures r.Daily? ==>
              Some(r.message) == CreateBalanceStr(CountedTotal(Entries(balances)), CountedTransactions(Entries(balances)), "")
  {
    var accts := Entries(balances);
    match CreateBalanceStr(CountedTotal(accts), CountedTransactions(accts), "")
    case None => NothingOnBalanceSheet
    case Some(s) => Daily(s)
  }

  /** `/clear_balances` followed by check-balance reports nothing. */
  lemma ResetReportsNothing(exchanges: seq<string>)
    ensures DailyReport(Some(Fresh(exchanges))) == NothingOnBalanceSheet
  {
    UncountedAggregateEmpty(Fresh(exchanges));
  }

  /** A ledger in which every entry but one is empty aggregates to that one entry. */
  lemma {:induction false} SingleCountedEntry(accts: seq<Account>, k: nat)
    requires k < |accts| && Counted(accts[k])
    requires forall i :: 0 <= i < |accts| && i != k ==> !Counted(accts[i])
    ensures CountedTotal(accts) == accts[k].total
    ensures CountedTransactions(accts) == accts[k].transactions
  {
    var init := accts[..|accts| - 1];
    if k == |accts| - 1 {
      assert forall i :: 0 <= i < |init| ==> init[i] == accts[i];
      UncountedAggregateEmpty(init);
    } else {
      assert forall i :: 0 <= i < |init| ==> init[i] == accts[i];
      SingleCountedEntry(init, k);
    }
  }

  /**
   * After a reset, recording a non-zero value for a configured exchange makes check-balance
   * report exactly that value and that one transaction; recording 0 still reports nothing,
   * since an entry whose total is 0 is skipped.
   */
  lemma RecordAfterReset(exchanges: seq<string>, key: string, value: real, time: string)
    requires key in exchanges
    ensures Credit(Fresh(exchanges), key, value, time).Some?
    ensures value != 0.0 ==>
              DailyReport(Some(Credit(Fresh(exchanges), key, value, time).value))
              == Daily(BalanceStr("", value, [Tx(Finite(value), time)]))
    ensures value == 0.0 ==>
              DailyReport(Some(Credit(Fresh(exchanges), key, value, time).value)) == NothingOnBalanceSheet
  {
    var base := Fresh(exchanges);
    FreshHasEveryExchange(exchanges, key);
    var r := Credit(base, key, value, time).value;
    var k := IndexOf(base, key).value;
    assert r[k].total == value && r[k].transactions == [Tx(Finite(value), time)];
    if value != 0.0 {
      SingleCountedEntry(r, k);
    } else {
      UncountedAggregateEmpty(r);
    }
  }

  /** The exchanges `/get_balance` reports on, with the names it shows. */
  const REPORTED_EXCHANGES: seq<(string, string)> := [("binance", "Binance"), ("bybit", "Bybit"), ("gate", "Gate")]

  /**
   * One line of `_checkDailyBalancePrivate` for a (key, name) pair: the message for the entry
   * under the key, when there is one with a non-zero total and at least one transaction.
   */
  function ReportOf(accts: seq<Account>, name: (string, string)): (r: Option<BalanceStr>)
    ensures r.Some? <==>
              IndexOf(accts, name.0).Some?
              && accts[IndexOf(accts, name.0).value].total != 0.0
              && accts[IndexOf(accts, name.0).value].transactions != []
    ensures r.Some? ==>
              var a := accts[IndexOf(accts, name.0).value];
              r.value == BalanceStr(name.1, a.total, a.transactions)
  {
    match IndexOf(accts, name.0)
    case None => None
    case Some(i) => CreateBalanceStr(accts[i].total, accts[i].transactions, name.1)
  }

  /**
   * The values of the present options, in order: the `if (str) await ctx.reply(str)` lines,
   * which send each non-null message and skip each null one.
   */
  function Somes<T(==)>(opts: seq<Option<T>>): (r: seq<T>)
    ensures |r| <= |opts|
    ensures forall k :: 0 <= k < |opts| && opts[k].Some? ==> opts[k].value in r
    ensures forall x :: x in r ==> exists k :: 0 <= k < |opts| && opts[k] == Some(x)
  {
    if opts == [] then []
    else
      var rest := Somes(opts[1..]);
      assert forall k :: 1 <= k < |opts| ==> opts[k] == opts[1..][k - 1];
      if opts[0].Some? then [opts[0].value] + rest else rest
  }

  /** x comes from an earlier option than y. */
  predicate EarlierIn<T(==)>(opts: seq<Option<T>>, x: T, y: T) {
    exists ki, kj :: 0 <= ki < kj < |opts| && opts[ki] == Some(x) && opts[kj] == Some(y)
  }

  /** Two values in order among the later options are in order among all of them. */
  lemma ShiftEarlier<T>(opts: seq<Option<T>>, x: T, y: T)
    requires |opts| > 0 && EarlierIn(opts[1..], x, y)
    ensures EarlierIn(opts, x, y)
  {
    var tail := opts[1..];
    var ki, kj :| 0 <= ki < kj < |tail| && tail[ki] == Some(x) && tail[kj] == Some(y);
    assert opts[ki + 1] == tail[ki] && opts[kj + 1] == tail[kj];
  }

  /** The first option's value comes before any value of a later option. */
  lemma HeadEarlier<T>(opts: seq<Option<T>>, y: T, k: nat)
    requires |opts| > 0 && opts[0].Some? && k < |opts| - 1 && opts[1..][k] == Some(y)
    ensures EarlierIn(opts, opts[0].value, y)
  {
    assert opts[k + 1] == opts[1..][k];
  }

  /** Values in order among the later options stay in order when no value is put in front. */
  lemma SkipOrdered<T>(opts: seq<Option<T>>, rest: seq<T>)
    requires |opts| > 0
    requires forall i, j :: 0 <= i < j < |rest| ==> EarlierIn(opts[1..], rest[i], rest[j])
    ensures forall i, j :: 0 <= i < j < |rest| ==> EarlierIn(opts, rest[i], rest[j])
  {
    forall i, j | 0 <= i < j < |rest|
      ensures EarlierIn(opts, rest[i], rest[j])
    {
      ShiftEarlier(opts, rest[i], rest[j]);
    }
  }

  /** Putting the first option's value in front of values of later options keeps them in order. */
  lemma ConsOrdered<T>(opts: seq<Option<T>>, rest: seq<T>)
    requires |opts| > 0 && opts[0].Some?
    requires forall y :: y in rest ==> exists k :: 0 <= k < |opts| - 1 && opts[1..][k] == Some(y)
    requires forall i, j :: 0 <= i < j < |rest| ==> EarlierIn(opts[1..], rest[i], rest[j])
    ensures var r := [opts[0].value] + rest;
            forall i, j :: 0 <= i < j < |r| ==> EarlierIn(opts, r[i], r[j])
  {
    var r := [opts[0].value] + rest;
    forall i, j | 0 <= i < j < |r|
      ensures EarlierIn(opts, r[i], r[j])
    {
      if i == 0 {
        assert r[j] == rest[j - 1] && rest[j - 1] in rest;
        var k :| 0 <= k < |opts| - 1 && opts[1..][k] == Some(rest[j - 1]);
        HeadEarlier(opts, rest[j - 1], k);
      } else {
        assert r[i] == rest[i - 1] && r[j] == rest[j - 1];
        ShiftEarlier(opts, rest[i - 1], rest[j - 1]);
      }
    }
  }

  /** `Somes` keeps the order of the options: of two values, the earlier comes from an earlier option. */
  lemma {:induction false} SomesInOrder<T>(opts: seq<Option<T>>)
    ensures forall i, j :: 0 <= i < j < |Somes(opts)| ==> EarlierIn(opts, Somes(opts)[i], Somes(opts)[j])
  {
    if opts != [] {
      var rest := Somes(opts[1..]);
      SomesInOrder(opts[1..]);
      if opts[0].None? {
        SkipOrdered(opts, rest);
      } else {
        ConsOrdered(opts, rest);
      }
    }
  }

  /** No present option, no value. */
  lemma {:induction false} SomesOfNones<T>(opts: seq<Option<T>>)
    requires forall k :: 0 <= k < |opts| ==> opts[k].None?
    ensures Somes(opts) == []
  {
    if opts != [] {
      assert forall k :: 0 <= k < |opts| - 1 ==> opts[1..][k] == opts[k + 1];
      SomesOfNones(opts[1..]);
    }
  }

  /** The `_createBalanceStr` result of every (key, name) pair, in the given order. */
  function PerName(accts: seq<Account>, names: seq<(string, string)>): (opts: seq<Option<BalanceStr>>)
    ensures |opts| == |names|
    ensures forall k :: 0 <= k < |names| ==> opts[k] == ReportOf(accts, names[k])
  {
    seq(|names|, k requires 0 <= k < |names| => ReportOf(accts, names[k]))
  }

  /** Message x is the message of an earlier name than message y. */
  predicate Before(accts: seq<Account>, names: seq<(string, string)>, x: BalanceStr, y: BalanceStr) {
    exists ki, kj :: 0 <= ki < kj < |names|
      && ReportOf(accts, names[ki]) == Some(x) && ReportOf(accts, names[kj]) == Some(y)
  }

  /**
   * `_checkDailyBalancePrivate` for the given (key, name) pairs: the message of every pair
   * that has one, and nothing else, in the order of the names.
   */
  function ReportsFor(accts: seq<Account>, names: seq<(string, string)>): (r: seq<BalanceStr>)
    ensures |r| <= |names|
    ensures forall k :: 0 <= k < |names| && ReportOf(accts, names[k]).Some? ==> ReportOf(accts, names[k]).value in r
    ensures forall s :: s in r ==> exists k :: 0 <= k < |names| && ReportOf(accts, names[k]) == Some(s)
    ensures forall i, j :: 0 <= i < j < |r| ==> Before(accts, names, r[i], r[j])
  {
    var opts := PerName(accts, names);
    var r := Somes(opts);
    SomesInOrder(opts);
    forall i, j | 0 <= i < j < |r|
      ensures Before(accts, names, r[i], r[j])
    {
      assert EarlierIn(opts, r[i], r[j]);
      var ki, kj :| 0 <= ki < kj < |opts| && opts[ki] == Some(r[i]) && opts[kj] == Some(r[j]);
      assert ReportOf(accts, names[ki]) == Some(r[i]) && ReportOf(accts, names[kj]) == Some(r[j]);
    }
    r
  }

  /**
   * `_checkDailyBalancePrivate`: at most one message each for Binance, Bybit and Gate, in that
   * order, sent exactly for those whose entry has a non-zero total and at least one transaction.
   */
  function PrivateReports(balances: Option<seq<Account>>): (r: seq<BalanceStr>)
    ensures |r| <= 3
    ensures forall k :: 0 <= k < 3 && ReportOf(Entries(balances), REPORTED_EXCHANGES[k]).Some? ==>
              ReportOf(Entries(balances), REPORTED_EXCHANGES[k]).value in r
    ensures forall s :: s in r ==>
              exists k :: 0 <= k < 3 && ReportOf(Entries(balances), REPORTED_EXCHANGES[k]) == Some(s)
    ensures forall i, j :: 0 <= i < j < |r| ==> Before(Entries(balances), REPORTED_EXCHANGES, r[i], r[j])
    ensures forall i, j :: 0 <= i < j < |r| ==> r[i].via != r[j].via
  {
    var r := ReportsFor(Entries(balances), REPORTED_EXCHANGES);
    ReportedNamesDistinct();
    forall i, j | 0 <= i < j < |r|
      ensures r[i].via != r[j].via
    {
      BeforeDistinctVia(Entries(balances), REPORTED_EXCHANGES, r[i], r[j]);
    }
    r
  }

  /** Binance, Bybit and Gate are shown under three different names. */
  lemma ReportedNamesDistinct()
    ensures forall a, b :: 0 <= a < b < |REPORTED_EXCHANGES| ==> REPORTED_EXCHANGES[a].1 != REPORTED_EXCHANGES[b].1
  {
    var n := REPORTED_EXCHANGES;
    assert n[0].1 == "Binance" && n[1].1 == "Bybit" && n[2].1 == "Gate";
    assert "Binance"[1] != "Bybit"[1] && "Binance"[0] != "Gate"[0] && "Bybit"[0] != "Gate"[0];
  }

  /** With distinct display names, messages of an earlier and a later name carry different names. */
  lemma BeforeDistinctVia(accts: seq<Account>, names: seq<(string, string)>, x: BalanceStr, y: BalanceStr)
    requires forall a, b :: 0 <= a < b < |names| ==> names[a].1 != names[b].1
    requires Before(accts, names, x, y)
    ensures x.via != y.via
  {
    var ki, kj :| 0 <= ki < kj < |names|
                  && ReportOf(accts, names[ki]) == Some(x) && ReportOf(accts, names[kj]) == Some(y);
    assert x.via == names[ki].1 && y.via == names[kj].1;
  }

  /** Right after a reset `/get_balance` sends nothing. */
  lemma ResetHasNoPrivateReports(exchanges: seq<string>, names: seq<(string, string)>)
    ensures ReportsFor(Fresh(exchanges), names) == []
  {
    var r := ReportsFor(Fresh(exchanges), names);
    var opts := PerName(Fresh(exchanges), names);
    forall k | 0 <= k < |opts|
      ensures opts[k].None?
    {
      assert opts[k] == ReportOf(Fresh(exchanges), names[k]);
    }
    SomesOfNones(opts);
  }

  /** The per-chat session object `ctx.session`; only its `balances` field is modelled. */
  class ChatSession {
    /** `ctx.session.balances`, absent until the first write. */
    var balances: Option<seq<Account>>

    ghost predicate Valid()
      reads this
    {
      balances.Some? ==> DistinctKeys(balances.value)
    }

    /** A session the store has just created: no balances yet. */
    constructor ()
      ensures Valid() && balances == None
    {
      balances := None;
    }
  }
}
