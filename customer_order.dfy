/**
 * Customer orders (class CustomerOrder): the customer, the product being
 * assembled and the list of item requests, each with the serial number of the
 * unit that filled it. Filling an order against a station's stock is specified
 * by Fill, a left-to-right pass over the requests that mirrors fillItem, and
 * the properties of that pass are proved as lemmas about Fill.
 */
module CustomerOrders {
  import opened Utilities
  import opened ItemSets

  /** CustomerOrder::ItemInfo: one item request. */
  datatype ItemInfo = ItemInfo(name: string, serialNumber: int, filled: bool)

  /** ItemInfo's default constructor: no name, serial number 0, not filled. */
  const EmptyRequest := ItemInfo("", 0, false)

  /** The three lines fillItem writes. */
  datatype Outcome = Filled | AlreadyFilled | OutOfStock

  /** One line of fillItem's report: CUSTOMER [PRODUCT][ITEM][SERIAL NUMBER]. */
  datatype Report = Report(outcome: Outcome, customer: string, product: string, item: string, serialNumber: int)

  /** Why the record constructor throws instead of producing an order. */
  datatype OrderError =
    | NoItemsFound      // the record names the customer and the product but no item
    | BadArrayLength    // no delimiter at all: the item count 0 - 1 wraps around and new[] fails

  datatype Result<T> = Ok(value: T) | Err(error: OrderError)

  /** Fresh, unfilled requests for the given item names. */
  function Unfilled(names: seq<string>): (requests: seq<ItemInfo>)
    ensures |requests| == |names|
    ensures forall k :: 0 <= k < |names| ==> requests[k] == ItemInfo(names[k], 0, false)
  {
    seq(|names|, k requires 0 <= k < |names| => ItemInfo(names[k], 0, false))
  }

  /** isFilled: every request has been filled. */
  predicate AllFilled(requests: seq<ItemInfo>) {
    forall k :: 0 <= k < |requests| ==> requests[k].filled
  }

  /** isItemFilled: every request for `name` has been filled (true when there is none). */
  predicate ItemFilled(requests: seq<ItemInfo>, name: string) {
    forall k :: 0 <= k < |requests| && requests[k].name == name ==> requests[k].filled
  }

  /** How many of the first `n` requests ask for `name`. */
  function Requests(requests: seq<ItemInfo>, name: string, n: nat): nat
    requires n <= |requests|
  {
    if n == 0 then 0
    else Requests(requests, name, n - 1) + (if requests[n - 1].name == name then 1 else 0)
  }

  /** The outcome of one pass, or of a prefix of it. */
  datatype FillResult = FillResult(requests: seq<ItemInfo>, stock: Stock, log: seq<Report>)

  /**
   * One iteration of fillItem's loop: a request for another item is skipped;
   * with no stock left the request is reported out of stock; a filled request
   * is reported already filled; otherwise the request takes the stock's serial
   * number and the stock is decremented.
   */
  function FillStep(request: ItemInfo, stock: Stock, customer: string, product: string): FillResult {
    if stock.name != request.name then
      FillResult([request], stock, [])
    else if stock.quantity == 0 then
      FillResult([request], stock, [Report(OutOfStock, customer, product, request.name, request.serialNumber)])
    else if request.filled then
      FillResult([request], stock, [Report(AlreadyFilled, customer, product, request.name, request.serialNumber)])
    else
      FillResult([request.(serialNumber := stock.serialNumber, filled := true)], Decremented(stock),
                 [Report(Filled, customer, product, request.name, stock.serialNumber)])
  }

  /** The first `n` iterations of fillItem's loop. */
  function FillPrefix(requests: seq<ItemInfo>, stock: Stock, customer: string, product: string, n: nat): (r: FillResult)
    requires n <= |requests|
    ensures |r.requests| == n
  {
    if n == 0 then FillResult([], stock, [])
    else
      var prev := FillPrefix(requests, stock, customer, product, n - 1);
      var step := FillStep(requests[n - 1], prev.stock, customer, product);
      FillResult(prev.requests + step.requests, step.stock, prev.log + step.log)
  }

  /** fillItem: the whole pass over the requests. */
  function Fill(requests: seq<ItemInfo>, stock: Stock, customer: string, product: string): (r: FillResult)
    ensures |r.requests| == |requests|
    ensures |r.log| <= |requests|
  {
    FillLogBound(requests, stock, customer, product, |requests|);
    FillPrefix(requests, stock, customer, product, |requests|)
  }

  /** Each iteration writes at most one line, so the log is no longer than the pass. */
  lemma {:induction false} FillLogBound(requests: seq<ItemInfo>, stock: Stock, customer: string, product: string, n: nat)
    requires n <= |requests|
    ensures |FillPrefix(requests, stock, customer, product, n).log| <= n
  {
    if n > 0 {
      FillLogBound(requests, stock, customer, product, n - 1);
    }
  }

  /** How many of the first `i` lines of the log report a unit handed out. */
  function FilledLines(log: seq<Report>, i: nat): nat
    requires i <= |log|
  {
    if i == 0 then 0 else FilledLines(log, i - 1) + (if log[i - 1].outcome == Filled then 1 else 0)
  }

  /** How many of the first `k` requests `after` has filled that `before` had not. */
  function NewlyFilled(before: seq<ItemInfo>, after: seq<ItemInfo>, k: nat): nat
    requires k <= |before| && k <= |after|
  {
    if k == 0 then 0
    else NewlyFilled(before, after, k - 1) + (if !before[k - 1].filled && after[k - 1].filled then 1 else 0)
  }

  /** A station is done with an order once its stock is exhausted or every request for its item is filled. */
  predicate Saturated(requests: seq<ItemInfo>, stock: Stock) {
    stock.quantity == 0 || ItemFilled(requests, stock.name)
  }

  /**
   * A pass touches only the requests for the stock's item and keeps every
   * item name and the stock's name and description.
   */
  lemma {:induction false} FillLeavesOtherItems(requests: seq<ItemInfo>, stock: Stock, customer: string, product: string, n: nat)
    requires n <= |requests|
    ensures var r := FillPrefix(requests, stock, customer, product, n);
      && (forall k :: 0 <= k < n ==> r.requests[k].name == requests[k].name)
      && (forall k :: 0 <= k < n && requests[k].name != stock.name ==> r.requests[k] == requests[k])
      && r.stock.name == stock.name && r.stock.description == stock.description
  {
    if n > 0 {
      FillLeavesOtherItems(requests, stock, customer, product, n - 1);
      var prev := FillPrefix(requests, stock, customer, product, n - 1);
      StepLeavesOtherItems(requests, stock, prev, customer, product, n);
    }
  }

  /** The induction step of FillLeavesOtherItems. */
  lemma StepLeavesOtherItems(requests: seq<ItemInfo>, stock: Stock, prev: FillResult, customer: string, product: string, n: nat)
    requires 0 < n <= |requests| && |prev.requests| == n - 1
    requires forall k :: 0 <= k < n - 1 ==> prev.requests[k].name == requests[k].name
    requires forall k :: 0 <= k < n - 1 && requests[k].name != stock.name ==> prev.requests[k] == requests[k]
    requires prev.stock.name == stock.name && prev.stock.description == stock.description
    ensures var step := FillStep(requests[n - 1], prev.stock, customer, product);
      var done := prev.requests + step.requests;
      && |done| == n
      && (forall k :: 0 <= k < n ==> done[k].name == requests[k].name)
      && (forall k :: 0 <= k < n && requests[k].name != stock.name ==> done[k] == requests[k])
      && step.stock.name == stock.name && step.stock.description == stock.description
  {
    var step := FillStep(requests[n - 1], prev.stock, customer, product);
    var done := prev.requests + step.requests;
    forall k | 0 <= k < n - 1
      ensures done[k] == prev.requests[k]
    {
    }
  }

  /**
   * A pass writes exactly one line per request for the stock's item, naming
   * the customer, the product and the item.
   */
  lemma {:induction false} FillReportsEachRequest(requests: seq<ItemInfo>, stock: Stock, customer: string, product: string, n: nat)
    requires n <= |requests|
    ensures var r := FillPrefix(requests, stock, customer, product, n);
      && |r.log| == Requests(requests, stock.name, n)
      && (forall e :: e in r.log ==> e.customer == customer && e.product == product && e.item == stock.name)
  {
    if n > 0 {
      FillReportsEachRequest(requests, stock, customer, product, n - 1);
      FillLeavesOtherItems(requests, stock, customer, product, n - 1);
      var prev := FillPrefix(requests, stock, customer, product, n - 1);
      StepReportsEachRequest(requests, stock, prev, customer, product, n);
    }
  }

  /** The induction step of FillReportsEachRequest. */
  lemma StepReportsEachRequest(requests: seq<ItemInfo>, stock: Stock, prev: FillResult, customer: string, product: string, n: nat)
    requires 0 < n <= |requests| && prev.stock.name == stock.name
    requires |prev.log| == Requests(requests, stock.name, n - 1)
    requires forall e :: e in prev.log ==> e.customer == customer && e.product == product && e.item == stock.name
    ensures var log := prev.log + FillStep(requests[n - 1], prev.stock, customer, product).log;
      && |log| == Requests(requests, stock.name, n)
      && (forall e :: e in log ==> e.customer == customer && e.product == product && e.item == stock.name)
  {
  }

  /** A pass never unfills a request: a filled request keeps its serial number too. */
  lemma {:induction false} FillNeverUnfills(requests: seq<ItemInfo>, stock: Stock, customer: string, product: string, n: nat)
    requires n <= |requests|
    ensures var r := FillPrefix(requests, stock, customer, product, n);
      forall k :: 0 <= k < n && requests[k].filled ==> r.requests[k] == requests[k]
  {
    if n > 0 {
      FillNeverUnfills(requests, stock, customer, product, n - 1);
    }
  }

  /**
   * A request the pass leaves unfilled comes out exactly as it went in: the
   * serial number is written only when a request is filled.
   */
  lemma {:induction false} FillKeepsUnfilled(requests: seq<ItemInfo>, stock: Stock, customer: string, product: string, n: nat)
    requires n <= |requests|
    ensures var r := FillPrefix(requests, stock, customer, product, n);
      forall k :: 0 <= k < n && !r.requests[k].filled ==> r.requests[k] == requests[k]
  {
    if n > 0 {
      FillKeepsUnfilled(requests, stock, customer, product, n - 1);
    }
  }

  /** FilledLines looks only at the lines it counts. */
  lemma {:induction false} FilledLinesPrefix(a: seq<Report>, b: seq<Report>, i: nat)
    requires i <= |a|
    ensures FilledLines(a + b, i) == FilledLines(a, i)
  {
    if i > 0 {
      FilledLinesPrefix(a, b, i - 1);
      assert (a + b)[i - 1] == a[i - 1];
    }
  }

  /** NewlyFilled looks only at the requests it counts. */
  lemma {:induction false} NewlyFilledPrefix(before: seq<ItemInfo>, after1: seq<ItemInfo>, after2: seq<ItemInfo>, k: nat)
    requires k <= |before| && k <= |after1| && k <= |after2|
    requires forall j :: 0 <= j < k ==> after1[j] == after2[j]
    ensures NewlyFilled(before, after1, k) == NewlyFilled(before, after2, k)
  {
    if k > 0 {
      NewlyFilledPrefix(before, after1, after2, k - 1);
    }
  }

  /**
   * One iteration of the loop either leaves the stock alone or decrements it
   * once; it decrements exactly when it fills its request, which then takes
   * the stock's serial number, and exactly then it writes a Filled line,
   * showing that serial number.
   */
  lemma FillStepFacts(request: ItemInfo, stock: Stock, customer: string, product: string)
    ensures var step := FillStep(request, stock, customer, product);
      var newly := !request.filled && step.requests[0].filled;
      && |step.requests| == 1 && |step.log| <= 1
      && (step.stock == stock || step.stock == Decremented(stock))
      && (newly <==> step.stock != stock)
      && (newly ==> step.requests[0].serialNumber == stock.serialNumber)
      && FilledLines(step.log, |step.log|) == (if newly then 1 else 0)
      && (|step.log| == 1 && step.log[0].outcome == Filled ==> step.log[0].serialNumber == stock.serialNumber)
      && (stock.quantity >= 0 ==> step.stock.quantity >= 0)
  {
  }

  /**
   * Quantity and serial number move in lockstep: the stock has been
   * decremented once for every Filled line, and there are as many Filled
   * lines as requests newly filled; a quantity that was not negative has not
   * gone below zero.
   */
  lemma {:induction false} FillStockLockstep(requests: seq<ItemInfo>, stock: Stock, customer: string, product: string, n: nat)
    requires n <= |requests|
    ensures var r := FillPrefix(requests, stock, customer, product, n);
      var m := FilledLines(r.log, |r.log|);
      && r.stock == DecrementedTimes(stock, m)
      && m == NewlyFilled(requests, r.requests, n)
      && (stock.quantity >= 0 ==> r.stock.quantity >= 0)
  {
    if n > 0 {
      FillStockLockstep(requests, stock, customer, product, n - 1);
      var prev := FillPrefix(requests, stock, customer, product, n - 1);
      StepLockstep(requests, stock, prev, customer, product, n);
    }
  }

  /** The induction step of FillStockLockstep. */
  lemma StepLockstep(requests: seq<ItemInfo>, stock: Stock, prev: FillResult, customer: string, product: string, n: nat)
    requires 0 < n <= |requests| && |prev.requests| == n - 1
    requires prev.stock == DecrementedTimes(stock, FilledLines(prev.log, |prev.log|))
    requires FilledLines(prev.log, |prev.log|) == NewlyFilled(requests, prev.requests, n - 1)
    requires stock.quantity >= 0 ==> prev.stock.quantity >= 0
    ensures var step := FillStep(requests[n - 1], prev.stock, customer, product);
      var done := prev.requests + step.requests;
      var log := prev.log + step.log;
      && step.stock == DecrementedTimes(stock, FilledLines(log, |log|))
      && FilledLines(log, |log|) == NewlyFilled(requests, done, n)
      && (stock.quantity >= 0 ==> step.stock.quantity >= 0)
  {
    var step := FillStep(requests[n - 1], prev.stock, customer, product);
    var done := prev.requests + step.requests;
    var log := prev.log + step.log;
    var m := FilledLines(prev.log, |prev.log|);
    FillStepFacts(requests[n - 1], prev.stock, customer, product);
    FilledLinesPrefix(prev.log, step.log, |prev.log|);
    NewlyFilledPrefix(requests, done, prev.requests, n - 1);
    var newly := if step.stock == prev.stock then 0 else 1;
    assert FilledLines(log, |log|) == m + newly by {
      if |step.log| == 1 {
        assert log[|log| - 1] == step.log[0];
      }
    }
    assert done[n - 1] == step.requests[0];
    assert NewlyFilled(requests, done, n) == m + newly;
    assert DecrementedTimes(stock, m + 1) == Decremented(DecrementedTimes(stock, m));
  }

  /**
   * The Filled lines of `log` show consecutive serial numbers from `base`:
   * each one shows `base` plus the number of Filled lines before it.
   */
  predicate ConsecutiveSerials(base: nat, log: seq<Report>) {
    forall i :: 0 <= i < |log| && log[i].outcome == Filled ==>
      log[i].serialNumber == base + FilledLines(log, i)
  }

  /**
   * Of the first `n` requests, each that `done` has filled and `before` had
   * not holds `base` plus the number of such requests before it.
   */
  predicate SerialsRecorded(base: nat, before: seq<ItemInfo>, done: seq<ItemInfo>, n: nat)
    requires n <= |before| && n <= |done|
  {
    forall k :: 0 <= k < n && !before[k].filled && done[k].filled ==>
      done[k].serialNumber == base + NewlyFilled(before, done, k)
  }

  /**
   * The units a pass hands out carry consecutive serial numbers: each Filled
   * line shows the stock's serial number plus the number of Filled lines
   * before it.
   */
  lemma {:induction false} FillHandsOutConsecutiveSerials(requests: seq<ItemInfo>, stock: Stock, customer: string, product: string, n: nat)
    requires n <= |requests|
    ensures ConsecutiveSerials(stock.serialNumber, FillPrefix(requests, stock, customer, product, n).log)
  {
    if n > 0 {
      FillHandsOutConsecutiveSerials(requests, stock, customer, product, n - 1);
      NextSerialLogged(requests, stock, customer, product, n);
      var prev := FillPrefix(requests, stock, customer, product, n - 1);
      var step := FillStep(requests[n - 1], prev.stock, customer, product);
      StepSerials(stock.serialNumber, prev.log, step.log);
      assert FillPrefix(requests, stock, customer, product, n).log == prev.log + step.log;
    }
  }

  /** Iteration n writes at most one line, and a Filled one shows the serial number after the earlier Filled lines. */
  lemma NextSerialLogged(requests: seq<ItemInfo>, stock: Stock, customer: string, product: string, n: nat)
    requires 0 < n <= |requests|
    ensures var prev := FillPrefix(requests, stock, customer, product, n - 1);
      var step := FillStep(requests[n - 1], prev.stock, customer, product);
      && |step.log| <= 1
      && (|step.log| == 1 && step.log[0].outcome == Filled ==>
            step.log[0].serialNumber == stock.serialNumber + FilledLines(prev.log, |prev.log|))
  {
    FillStockLockstep(requests, stock, customer, product, n - 1);
    var prev := FillPrefix(requests, stock, customer, product, n - 1);
    FillStepFacts(requests[n - 1], prev.stock, customer, product);
    DecrementedTimesShifts(stock, FilledLines(prev.log, |prev.log|));
  }

  /**
   * The induction step of FillHandsOutConsecutiveSerials: appending at most
   * one line, a Filled one showing the serial number after the earlier Filled
   * lines, keeps the serial numbers consecutive from `base`.
   */
  lemma StepSerials(base: nat, prevLog: seq<Report>, stepLog: seq<Report>)
    requires ConsecutiveSerials(base, prevLog)
    requires |stepLog| <= 1
    requires |stepLog| == 1 && stepLog[0].outcome == Filled ==>
      stepLog[0].serialNumber == base + FilledLines(prevLog, |prevLog|)
    ensures ConsecutiveSerials(base, prevLog + stepLog)
  {
    var log := prevLog + stepLog;
    forall i | 0 <= i < |log| && log[i].outcome == Filled
      ensures log[i].serialNumber == base + FilledLines(log, i)
    {
      FilledLinesPrefix(prevLog, stepLog, i);
      if i < |prevLog| {
        assert log[i] == prevLog[i];
      } else {
        assert log[i] == stepLog[0];
      }
    }
  }

  /**
   * Each request a pass fills takes the next serial number: the stock's
   * serial number plus the number of requests before it that the pass filled.
   */
  lemma {:induction false} FillRecordsSerials(requests: seq<ItemInfo>, stock: Stock, customer: string, product: string, n: nat)
    requires n <= |requests|
    ensures SerialsRecorded(stock.serialNumber, requests, FillPrefix(requests, stock, customer, product, n).requests, n)
  {
    if n > 0 {
      FillRecordsSerials(requests, stock, customer, product, n - 1);
      NextSerialRecorded(requests, stock, customer, product, n);
      var prev := FillPrefix(requests, stock, customer, product, n - 1);
      var step := FillStep(requests[n - 1], prev.stock, customer, product);
      StepRecordsSerials(stock.serialNumber, requests, prev.requests, step.requests);
      assert FillPrefix(requests, stock, customer, product, n).requests == prev.requests + step.requests;
    }
  }

  /** Request n - 1, when iteration n fills it, takes the serial number after the requests filled before it. */
  lemma NextSerialRecorded(requests: seq<ItemInfo>, stock: Stock, customer: string, product: string, n: nat)
    requires 0 < n <= |requests|
    ensures var prev := FillPrefix(requests, stock, customer, product, n - 1);
      var step := FillStep(requests[n - 1], prev.stock, customer, product);
      !requests[n - 1].filled && step.requests[0].filled ==>
        step.requests[0].serialNumber == stock.serialNumber + NewlyFilled(requests, prev.requests, n - 1)
  {
    FillStockLockstep(requests, stock, customer, product, n - 1);
    var prev := FillPrefix(requests, stock, customer, product, n - 1);
    FillStepFacts(requests[n - 1], prev.stock, customer, product);
    DecrementedTimesShifts(stock, NewlyFilled(requests, prev.requests, n - 1));
  }

  /**
   * The induction step of FillRecordsSerials: appending one request which,
   * if newly filled, takes the serial number after the requests filled
   * before it keeps the serial numbers consecutive from `base`.
   */
  lemma StepRecordsSerials(base: nat, requests: seq<ItemInfo>, prevDone: seq<ItemInfo>, stepDone: seq<ItemInfo>)
    requires |stepDone| == 1 && |prevDone| < |requests|
    requires SerialsRecorded(base, requests, prevDone, |prevDone|)
    requires !requests[|prevDone|].filled && stepDone[0].filled ==>
      stepDone[0].serialNumber == base + NewlyFilled(requests, prevDone, |prevDone|)
    ensures SerialsRecorded(base, requests, prevDone + stepDone, |prevDone| + 1)
  {
    var done := prevDone + stepDone;
    forall k | 0 <= k <= |prevDone| && !requests[k].filled && done[k].filled
      ensures done[k].serialNumber == base + NewlyFilled(requests, done, k)
    {
      NewlyFilledPrefix(requests, done, prevDone, k);
      if k == |prevDone| {
        assert done[k] == stepDone[0];
      } else {
        assert done[k] == prevDone[k];
      }
    }
  }

  /**
   * The lines a pass writes when it can fill nothing: one `outcome` line
   * per request for `name` among the first `n`, in order, each showing the
   * serial number the request already holds.
   */
  function UnableLines(requests: seq<ItemInfo>, name: string, outcome: Outcome, customer: string, product: string, n: nat): seq<Report>
    requires n <= |requests|
  {
    if n == 0 then []
    else
      UnableLines(requests, name, outcome, customer, product, n - 1)
      + (if requests[n - 1].name == name then [Report(outcome, customer, product, name, requests[n - 1].serialNumber)] else [])
  }

  /**
   * With no stock left a pass changes nothing: every request for the item,
   * filled or not, is reported out of stock with the serial number it
   * already holds.
   */
  lemma {:induction false} FillOutOfStock(requests: seq<ItemInfo>, stock: Stock, customer: string, product: string, n: nat)
    requires n <= |requests| && stock.quantity == 0
    ensures FillPrefix(requests, stock, customer, product, n).requests == requests[..n]
    ensures FillPrefix(requests, stock, customer, product, n).stock == stock
    ensures FillPrefix(requests, stock, customer, product, n).log
      == UnableLines(requests, stock.name, OutOfStock, customer, product, n)
  {
    if n > 0 {
      FillOutOfStock(requests, stock, customer, product, n - 1);
      assert requests[..n] == requests[..n - 1] + [requests[n - 1]];
    }
  }

  /**
   * With stock left and every request for the item already filled, a pass
   * changes nothing and reports each of those requests already filled with
   * the serial number it holds.
   */
  lemma {:induction false} FillAlreadyFilled(requests: seq<ItemInfo>, stock: Stock, customer: string, product: string, n: nat)
    requires n <= |requests| && stock.quantity != 0 && ItemFilled(requests, stock.name)
    ensures FillPrefix(requests, stock, customer, product, n).requests == requests[..n]
    ensures FillPrefix(requests, stock, customer, product, n).stock == stock
    ensures FillPrefix(requests, stock, customer, product, n).log
      == UnableLines(requests, stock.name, AlreadyFilled, customer, product, n)
  {
    if n > 0 {
      FillAlreadyFilled(requests, stock, customer, product, n - 1);
      assert requests[..n] == requests[..n - 1] + [requests[n - 1]];
    }
  }

  /**
   * After a pass the station can release the order: either the stock ran out
   * or every request for the item has been filled.
   */
  lemma {:induction false} FillSaturates(requests: seq<ItemInfo>, stock: Stock, customer: string, product: string, n: nat)
    requires n <= |requests|
    ensures var r := FillPrefix(requests, stock, customer, product, n);
      Saturated(r.requests, r.stock)
  {
    if n > 0 {
      FillSaturates(requests, stock, customer, product, n - 1);
      FillLeavesOtherItems(requests, stock, customer, product, n - 1);
      var prev := FillPrefix(requests, stock, customer, product, n - 1);
      var r := FillPrefix(requests, stock, customer, product, n);
      if r.stock.quantity != 0 {
        assert prev.stock.quantity != 0;
        forall k | 0 <= k < n && r.requests[k].name == r.stock.name
          ensures r.requests[k].filled
        {
          if k < n - 1 {
            assert r.requests[k] == prev.requests[k];
          }
        }
      }
    }
  }

  /** How many of the first `n` requests ask for `name` and are not filled yet. */
  function UnfilledRequests(requests: seq<ItemInfo>, name: string, n: nat): nat
    requires n <= |requests|
  {
    if n == 0 then 0
    else UnfilledRequests(requests, name, n - 1) + (if requests[n - 1].name == name && !requests[n - 1].filled then 1 else 0)
  }

  /**
   * When `after` keeps the names of `before`, changes no request for another
   * item and changes no request that was filled, at most the unfilled
   * requests for `name` become filled, and all of them do when `after` has
   * every request for `name` filled.
   */
  lemma {:induction false} NewlyFilledBound(before: seq<ItemInfo>, after: seq<ItemInfo>, name: string, k: nat)
    requires k <= |before| && k <= |after|
    requires forall j :: 0 <= j < k ==> after[j].name == before[j].name
    requires forall j :: 0 <= j < k && before[j].name != name ==> after[j] == before[j]
    requires forall j :: 0 <= j < k && before[j].filled ==> after[j] == before[j]
    ensures NewlyFilled(before, after, k) <= UnfilledRequests(before, name, k)
    ensures (forall j :: 0 <= j < k && after[j].name == name ==> after[j].filled) ==>
      NewlyFilled(before, after, k) == UnfilledRequests(before, name, k)
  {
    if k > 0 {
      NewlyFilledBound(before, after, name, k - 1);
    }
  }

  /**
   * A pass with a stock of `q` >= 0 units fills exactly min(u, q) requests,
   * where u is the number of unfilled requests for the stock's item.
   */
  lemma FillCount(requests: seq<ItemInfo>, stock: Stock, customer: string, product: string, n: nat)
    requires n <= |requests| && stock.quantity >= 0
    ensures var u := UnfilledRequests(requests, stock.name, n);
      NewlyFilled(requests, FillPrefix(requests, stock, customer, product, n).requests, n)
        == if u < stock.quantity then u else stock.quantity
  {
    var r := FillPrefix(requests, stock, customer, product, n);
    var m := NewlyFilled(requests, r.requests, n);
    FillStockLockstep(requests, stock, customer, product, n);
    DecrementedTimesShifts(stock, m);
    FillLeavesOtherItems(requests, stock, customer, product, n);
    FillNeverUnfills(requests, stock, customer, product, n);
    FillSaturates(requests, stock, customer, product, n);
    NewlyFilledBound(requests, r.requests, stock.name, n);
  }

  /** A request the pass has got past keeps what it got. */
  lemma {:induction false} FillPrefixStable(requests: seq<ItemInfo>, stock: Stock, customer: string, product: string, m: nat, n: nat, k: nat)
    requires k < m <= n <= |requests|
    ensures FillPrefix(requests, stock, customer, product, n).requests[k]
      == FillPrefix(requests, stock, customer, product, m).requests[k]
  {
    if m < n {
      FillPrefixStable(requests, stock, customer, product, m, n - 1, k);
      var prev := FillPrefix(requests, stock, customer, product, n - 1);
      assert FillPrefix(requests, stock, customer, product, n).requests[k] == prev.requests[k];
    }
  }

  /** Once the stock is exhausted it stays as it is for the rest of the pass. */
  lemma {:induction false} FillStaysOutOfStock(requests: seq<ItemInfo>, stock: Stock, customer: string, product: string, m: nat, n: nat)
    requires m <= n <= |requests|
    requires FillPrefix(requests, stock, customer, product, m).stock.quantity == 0
    ensures FillPrefix(requests, stock, customer, product, n).stock
      == FillPrefix(requests, stock, customer, product, m).stock
  {
    if m < n {
      FillStaysOutOfStock(requests, stock, customer, product, m, n - 1);
    }
  }

  /** UnableLines looks only at the requests it reports on. */
  lemma {:induction false} UnableLinesPrefix(a: seq<ItemInfo>, b: seq<ItemInfo>, name: string, outcome: Outcome, customer: string, product: string, i: nat)
    requires i <= |a| && i <= |b| && a[..i] == b[..i]
    ensures UnableLines(a, name, outcome, customer, product, i) == UnableLines(b, name, outcome, customer, product, i)
  {
    if i > 0 {
      assert a[i - 1] == a[..i][i - 1] == b[..i][i - 1] == b[i - 1];
      assert a[..i - 1] == a[..i][..i - 1];
      assert b[..i - 1] == b[..i][..i - 1];
      UnableLinesPrefix(a, b, name, outcome, customer, product, i - 1);
    }
  }

  /** A pass keeps the stock's name. */
  lemma FillKeepsStockName(requests: seq<ItemInfo>, stock: Stock, customer: string, product: string, n: nat)
    requires n <= |requests|
    ensures FillPrefix(requests, stock, customer, product, n).stock.name == stock.name
  {
    FillLeavesOtherItems(requests, stock, customer, product, n);
  }

  /** A slice grows by the element at its end. */
  lemma SliceExtend<T>(s: seq<T>, m: nat, n: nat)
    requires m < n <= |s|
    ensures s[m..n] == s[m..n - 1] + [s[n - 1]]
  {
    assert s[m..n][..n - 1 - m] == s[m..n - 1];
  }

  /** Appending a request to UnableLines' input appends at most its own line. */
  lemma UnableLinesExtend(a: seq<ItemInfo>, x: ItemInfo, name: string, outcome: Outcome, customer: string, product: string)
    ensures UnableLines(a + [x], name, outcome, customer, product, |a| + 1)
      == UnableLines(a, name, outcome, customer, product, |a|)
         + (if x.name == name then [Report(outcome, customer, product, name, x.serialNumber)] else [])
  {
    assert (a + [x])[..|a|] == a[..|a|];
    UnableLinesPrefix(a + [x], a, name, outcome, customer, product, |a|);
  }

  /**
   * The induction step of FillAfterOutOfStock: with no stock left, one more
   * iteration appends its request unchanged and at most one OutOfStock line.
   */
  lemma OutOfStockStep(p: FillResult, prev: FillResult, tail: seq<ItemInfo>, x: ItemInfo, name: string, customer: string, product: string)
    requires p.stock.quantity == 0 && p.stock.name == name
    requires prev.requests == p.requests + tail && prev.stock == p.stock
    requires prev.log == p.log + UnableLines(tail, name, OutOfStock, customer, product, |tail|)
    ensures var step := FillStep(x, prev.stock, customer, product);
      && prev.requests + step.requests == p.requests + (tail + [x])
      && step.stock == p.stock
      && prev.log + step.log == p.log + UnableLines(tail + [x], name, OutOfStock, customer, product, |tail| + 1)
  {
    UnableLinesExtend(tail, x, name, OutOfStock, customer, product);
  }

  /**
   * Once the stock runs out partway through a pass, the rest of the pass
   * changes nothing: each later request for the item, filled or not, is
   * reported out of stock with the serial number it already holds.
   */
  lemma {:induction false} FillAfterOutOfStock(requests: seq<ItemInfo>, stock: Stock, customer: string, product: string, m: nat, n: nat)
    requires m <= n <= |requests|
    requires FillPrefix(requests, stock, customer, product, m).stock.quantity == 0
    ensures FillPrefix(requests, stock, customer, product, n).requests
      == FillPrefix(requests, stock, customer, product, m).requests + requests[m..n]
    ensures FillPrefix(requests, stock, customer, product, n).stock
      == FillPrefix(requests, stock, customer, product, m).stock
    ensures FillPrefix(requests, stock, customer, product, n).log
      == FillPrefix(requests, stock, customer, product, m).log
         + UnableLines(requests[m..n], stock.name, OutOfStock, customer, product, n - m)
  {
    if m < n {
      FillAfterOutOfStock(requests, stock, customer, product, m, n - 1);
      FillKeepsStockName(requests, stock, customer, product, m);
      var p := FillPrefix(requests, stock, customer, product, m);
      var prev := FillPrefix(requests, stock, customer, product, n - 1);
      var tail := requests[m..n - 1];
      SliceExtend(requests, m, n);
      OutOfStockStep(p, prev, tail, requests[n - 1], stock.name, customer, product);
    }
  }

  /**
   * Requests for the item are filled in index order: if the pass fills an
   * unfilled request for the item, it also fills every earlier one.
   */
  lemma FillFillsInOrder(requests: seq<ItemInfo>, stock: Stock, customer: string, product: string, n: nat, k1: nat, k2: nat)
    requires k1 < k2 < n <= |requests|
    requires requests[k1].name == stock.name && !requests[k1].filled
    requires !requests[k2].filled && FillPrefix(requests, stock, customer, product, n).requests[k2].filled
    ensures FillPrefix(requests, stock, customer, product, n).requests[k1].filled
  {
    FillPrefixStable(requests, stock, customer, product, k1 + 1, n, k1);
    FillPrefixStable(requests, stock, customer, product, k2 + 1, n, k2);
    FillLeavesOtherItems(requests, stock, customer, product, k1);
    var before := FillPrefix(requests, stock, customer, product, k1);
    if before.stock.quantity == 0 {
      FillStaysOutOfStock(requests, stock, customer, product, k1, k2);
      assert false;
    }
    assert FillPrefix(requests, stock, customer, product, k1 + 1).requests[k1]
      == FillStep(requests[k1], before.stock, customer, product).requests[0];
  }

  /** A pass over an order the station is already done with changes nothing. */
  lemma {:induction false} FillWhenSaturated(requests: seq<ItemInfo>, stock: Stock, customer: string, product: string, n: nat)
    requires n <= |requests| && Saturated(requests, stock)
    ensures var r := FillPrefix(requests, stock, customer, product, n);
      r.requests == requests[..n] && r.stock == stock
  {
    if n > 0 {
      FillWhenSaturated(requests, stock, customer, product, n - 1);
      assert requests[..n] == requests[..n - 1] + [requests[n - 1]];
    }
  }

  /**
   * Filling twice is filling once: the second pass changes nothing and only
   * reports, each request for the item out of stock when the first pass used
   * up the stock and already filled otherwise.
   */
  lemma FillIdempotent(requests: seq<ItemInfo>, stock: Stock, customer: string, product: string)
    ensures var once := Fill(requests, stock, customer, product);
      var twice := Fill(once.requests, once.stock, customer, product);
      && twice.requests == once.requests && twice.stock == once.stock
      && twice.log == UnableLines(once.requests, stock.name, if once.stock.quantity == 0 then OutOfStock else AlreadyFilled,
                                  customer, product, |requests|)
  {
    var once := Fill(requests, stock, customer, product);
    FillSaturates(requests, stock, customer, product, |requests|);
    FillLeavesOtherItems(requests, stock, customer, product, |requests|);
    assert once.requests[..|requests|] == once.requests;
    if once.stock.quantity == 0 {
      FillOutOfStock(once.requests, once.stock, customer, product, |requests|);
    } else {
      FillAlreadyFilled(once.requests, once.stock, customer, product, |requests|);
    }
  }

  /** The bracketed label getNameProduct builds. */
  function Label(customer: string, product: string): (l: string)
    ensures |l| == |customer| + |product| + 2
    ensures l[..|customer|] == customer && l[|customer|] == '['
    ensures l[|customer| + 1..|l| - 1] == product && l[|l| - 1] == ']'
  {
    customer + "[" + product + "]"
  }

  /** A label tells apart orders whose customer names hold no '['. */
  lemma LabelDeterminesOrder(c1: string, p1: string, c2: string, p2: string)
    requires '[' !in c1 && '[' !in c2
    requires Label(c1, p1) == Label(c2, p2)
    ensures c1 == c2 && p1 == p2
  {
    if |c1| != |c2| {
      assert false;
    }
  }

  class CustomerOrder {
    const customerName: string
    const productName: string
    /** m_itemsOrdered, with m_numItems as its length. */
    const items: array<ItemInfo>

    /** The default constructor: no customer, no product, no requests. */
    constructor Empty()
      ensures customerName == "" && productName == "" && items.Length == 0
    {
      customerName := "";
      productName := "";
      items := new ItemInfo[0];
    }

    /**
     * The record constructor, for a record that holds at least one item:
     * the customer name, then the product, then one field per requested item,
     * split at the delimiter `utility` holds. The product token keeps the
     * delimiter in front of it when the customer name is empty.
     */
    constructor (record: string, utility: Utilities)
      requires Count(record, utility.delimiter) >= 2
      ensures var fields := Split(record, utility.delimiter);
        && customerName == fields[0]
        && productName == (if fields[0] == [] then [utility.delimiter] + fields[1] else fields[1])
        && items[..] == Unfilled(fields[2..])
      ensures fresh(items)
    {
      var delim := utility.GetDelimiter();
      ghost var fields := Split(record, delim);
      ghost var ds := Delimiters(record, delim);
      HeaderTokens(record, delim);
      var cursor := Find(record, delim, 0);
      customerName := record[..cursor.index];

      var product := ExtractToken(record, cursor, delim);
      productName := product.0;
      cursor := product.1;

      var numItems := Count(record, delim) - 1;
      var requests := ReadItems(record, delim, cursor, numItems);
      items := requests;
    }

    /**
     * The loop of the record constructor: with the cursor at the second
     * delimiter, reads the remaining `numItems` fields as fresh, unfilled
     * requests, in order.
     */
    static method ReadItems(record: string, delim: char, cursor0: Position, numItems: nat) returns (requests: array<ItemInfo>)
      requires numItems + 1 == |Delimiters(record, delim)| && 2 <= |Delimiters(record, delim)|
      requires cursor0 == Pos(Delimiters(record, delim)[1])
      ensures fresh(requests)
      ensures requests[..] == Unfilled(Split(record, delim)[2..])
    {
      ghost var fields := Split(record, delim);
      ghost var ds := Delimiters(record, delim);
      var cursor := cursor0;
      requests := new ItemInfo[numItems](_ => EmptyRequest);
      var i := 0;
      while i < numItems
        invariant 0 <= i <= numItems
        invariant cursor == if i + 1 < |ds| then Pos(ds[i + 1]) else NPos
        invariant forall k :: 0 <= k < i ==> requests[k] == ItemInfo(fields[2 + k], 0, false)
      {
        ExtractSplitField(record, delim, i + 1);
        var token := ExtractToken(record, cursor, delim);
        requests[i] := ItemInfo(token.0, 0, false);
        cursor := token.1;
        i := i + 1;
      }
    }

    /**
     * The record constructor with its error path: the source throws when the
     * record names no item, and its allocation fails when the record holds no
     * delimiter at all, since the item count 0 - 1 wraps around.
     */
    static method FromRecord(record: string, utility: Utilities) returns (r: Result<CustomerOrder>)
      ensures Count(record, utility.delimiter) == 0 <==> r == Err(BadArrayLength)
      ensures Count(record, utility.delimiter) == 1 <==> r == Err(NoItemsFound)
      ensures r.Ok? ==> var fields := Split(record, utility.delimiter);
        && r.value.customerName == fields[0]
        && r.value.productName == (if fields[0] == [] then [utility.delimiter] + fields[1] else fields[1])
        && r.value.items[..] == Unfilled(fields[2..])
      ensures r.Ok? ==> fresh(r.value.items)
    {
      var count := Count(record, utility.GetDelimiter());
      if count == 0 {
        return Err(BadArrayLength);
      } else if count == 1 {
        return Err(NoItemsFound);
      }
      var order := new CustomerOrder(record, utility);
      return Ok(order);
    }

    /**
     * fillItem: one pass over the requests against the station's stock,
     * returning the lines it reports.
     */
    method FillItem(stock: ItemSet) returns (log: seq<Report>)
      modifies items, stock
      ensures var r := Fill(old(items[..]), old(stock.State()), customerName, productName);
        items[..] == r.requests && stock.State() == r.stock && log == r.log
    {
      ghost var requests := items[..];
      ghost var stock0 := stock.State();
      log := [];
      var i := 0;
      while i < items.Length
        invariant 0 <= i <= items.Length
        invariant var r := FillPrefix(requests, stock0, customerName, productName, i);
          items[..i] == r.requests && stock.State() == r.stock && log == r.log
        invariant forall k :: i <= k < items.Length ==> items[k] == requests[k]
      {
        var request := items[i];
        ghost var prev := FillPrefix(requests, stock0, customerName, productName, i);
        ghost var step := FillStep(request, stock.State(), customerName, productName);
        assert request == requests[i];
        if stock.GetName() == request.name {
          if stock.GetQuantity() == 0 {
            log := log + [Report(OutOfStock, customerName, productName, request.name, request.serialNumber)];
          } else if request.filled {
            log := log + [Report(AlreadyFilled, customerName, productName, request.name, request.serialNumber)];
          } else {
            items[i] := request.(serialNumber := stock.GetSerialNumber(), filled := true);
            stock.Decrement();
            log := log + [Report(Filled, customerName, productName, request.name, items[i].serialNumber)];
          }
        }
        assert items[..i + 1] == prev.requests + step.requests;
        assert stock.State() == step.stock && log == prev.log + step.log;
        i := i + 1;
      }
      assert items[..] == items[..i];
      assert requests == requests[..|requests|];
    }

    /** isFilled: true exactly when every request has been filled. */
    method IsFilled() returns (filled: bool)
      ensures filled <==> AllFilled(items[..])
      ensures items.Length == 0 ==> filled
    {
      var i := 0;
      while i < items.Length
        invariant 0 <= i <= items.Length
        invariant AllFilled(items[..i])
      {
        if !items[i].filled {
          return false;
        }
        i := i + 1;
      }
      assert items[..] == items[..i];
      return true;
    }

    /** isItemFilled: true exactly when every request for `name` has been filled, so true when there is none. */
    method IsItemFilled(name: string) returns (filled: bool)
      ensures filled <==> ItemFilled(items[..], name)
      ensures (forall k :: 0 <= k < items.Length ==> items[k].name != name) ==> filled
    {
      var i := 0;
      while i < items.Length
        invariant 0 <= i <= items.Length
        invariant ItemFilled(items[..i], name)
      {
        if items[i].name == name && !items[i].filled {
          return false;
        }
        i := i + 1;
      }
      assert items[..] == items[..i];
      return true;
    }

    /** getNameProduct: the customer name followed by the product in brackets. */
    function GetNameProduct(): (l: string)
      ensures l == Label(customerName, productName)
    {
      Label(customerName, productName)
    }
  }
}
