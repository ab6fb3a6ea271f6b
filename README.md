# Assembly-line order fulfilment, in Dafny

This project models the bookkeeping core of an assembly-line simulator:

- **Records.** A record tokenizer (`Utilities`) splits delimited text records into fields.
- **Stock.** An item stock (`ItemSet`) holds a name, a description, the next serial number and the quantity left.
- **Orders.** A customer order (`CustomerOrder`) has a fixed array of item requests. Each request has a name, a filled flag and the serial number of the unit that filled it.
- **Stations.** A station (`Station`) owns one stock and a FIFO queue of orders. It fills the order at the front of the queue and releases it.

There is one module per source file:

| file | module | contents |
|---|---|---|
| `utilities.dfy` | `Utilities` | `std::string::find` (`Find`), `std::count` (`Count`), `extractToken` as a pure function (`ExtractToken`) over a cursor that is an index or npos, and a class holding the shared delimiter and field width. |
| `item_set.dfy` | `ItemSets` | The stock as a value (`Stock`) and as a class (`ItemSet`). |
| `customer_order.dfy` | `CustomerOrders` | Requests, the fill report, and the `CustomerOrder` class. |
| `station.dfy` | `Stations` | The `Station` class. |

Record parsing is specified against `Split`: the plain split of a string at every occurrence of the delimiter. `Join` undoes `Split` (`JoinSplit`: joining the fields of a split with the delimiter gives the string back), and its field count is tied to `std::count`. The constructors are then proved to read the fields of `Split` in order.

The model follows how `extractToken` handles its cursor:

- From cursor 0 the token starts at index 0. So a record that starts with the delimiter yields a product name or serial token that keeps that delimiter.
- From cursor npos, `npos + 1` wraps to 0 in `size_t` arithmetic, so the search restarts at the beginning of the record.

`fillItem` is specified by `Fill`, a left-to-right fold of one loop iteration (`FillStep`). The method `CustomerOrder.FillItem` keeps the request array in place and decrements the `ItemSet` it is given. It is proved equal to that fold, and the fold's properties are proved as lemmas:

- stock and serial numbers move in lockstep;
- serial numbers are consecutive;
- a pass fills exactly min(unfilled requests, quantity) requests, in index order;
- a filled request never reverts;
- with no stock, every matching request is reported out of stock;
- a pass never touches other items;
- filling twice is filling once;
- after a pass, the station can release the order.

The fill report (`std::ostream` text in the source) is a sequence of `Report` values. Each value holds the outcome (`Filled`, `AlreadyFilled` or `OutOfStock`), the customer, the product, the item and the serial number.

Where a source comment and the code disagree, the model follows the code:
- `Station::fill` fills the **front** order, although its comment says "last" (Station.cpp:20-24).
- `getNameProduct` returns `customer + "[" + product + "]"` with no space, although its comment shows `CUSTOMER [PRODUCT]` (CustomerOrder.cpp:134-140).

## Model

| member | source | states |
|---|---|---|
| Utilities.Find | Utilities.cpp:25 | A found position lies at or after the start of the search and holds the searched character. |
| Utilities.FindSpec | Utilities.cpp:25 | `find` reports the first occurrence: nothing it skips holds the character, and npos means the character does not occur from the start position on. |
| Utilities.ExtractToken | Utilities.cpp:19-45 | When the old cursor is an index, the new cursor is npos or a delimiter strictly after it. From npos the search wraps to the start of the string (`ExtractAtNpos`). |
| Utilities.ExtractTokenSpec | Utilities.cpp:25-43 | The token runs from one past the cursor (from 0 when the cursor is 0 or npos) up to the next delimiter, or to the end of the string when there is none. Nothing from one past the cursor (from 0 when the cursor is npos) up to the token's end is a delimiter. Past a cursor other than 0 the token holds no delimiter. |
| Utilities.DelimitersFromBounds | Utilities.cpp:25 | The listed delimiter positions are in range, hold the delimiter and strictly increase. |
| Utilities.DelimitersFromCount | CustomerOrder.cpp:33 | There are as many delimiter positions as `std::count` counts. |
| Utilities.Split | CustomerOrder.cpp:33 | A record has one field more than `std::count` counts delimiters, and no field contains the delimiter. |
| Utilities.ExtractAtDelimiter | Utilities.cpp:25-43 | Extracting at delimiter j yields field j + 1 (with the delimiter in front when delimiter j is at index 0) and moves the cursor to delimiter j + 1, or to npos after the last one. |
| Utilities.ExtractSplitField | Utilities.cpp:30-43 | Past the first delimiter, extracting at delimiter j yields exactly field j + 1 of the split and moves the cursor to the next delimiter or npos. |
| Utilities.ExtractAtNpos | Utilities.cpp:25-34 | From an npos cursor the search wraps to the start: the token is field 0 and the cursor moves to the first delimiter. |
| Utilities.FirstDelimiter | ItemSet.cpp:13-16 | The record's first `find` gives the first delimiter, and the text before it is field 0. |
| Utilities.HeaderTokens | CustomerOrder.cpp:25-31 | The name before the first delimiter is field 0. The token after it is field 1, with the delimiter in front when field 0 is empty. |
| Utilities.CountBounds | CustomerOrder.cpp:33 | `std::count` is at most the length. It is zero exactly when the character does not occur, and equals the length exactly when every character is the delimiter. |
| Utilities.JoinSplit | Utilities.cpp:19-45 | The reference split loses nothing: joining the fields with the delimiter gives back the record. |
| Utilities.Utilities.constructor | Utilities.cpp:9-10 | The shared settings start as the delimiter '\0' and the field width 0. |
| Utilities.Utilities.SetDelimiter | Utilities.cpp:61-63 | After the call, `getDelimiter` returns the new delimiter, and the field width is unchanged. |
| Utilities.Utilities.SetFieldWidth | Utilities.cpp:67-69 | After the call, `getFieldWidth` returns the new width, and the delimiter is unchanged. |
| ItemSets.DecrementedTimesShifts | ItemSet.cpp:71-76 | n chained prefix decrements lower the quantity by n and raise the serial number by n, keeping name and description. |
| ItemSets.DecrementsHandOutDistinctSerials | ItemSet.cpp:71-73 | Successive decrements of one stock hand out strictly increasing, and so distinct, serial numbers, while the quantity strictly falls. |
| ItemSets.ItemToken | ItemSet.cpp:22-24 | Within the record's field count, token k is field k, with the delimiter in front of field 1 when the name is empty. Past it the tokens wrap around to the name, because an npos cursor restarts the search. |
| ItemSets.ItemTokens | ItemSet.cpp:13-24 | For every record, the three tokens extracted after the name are tokens 1, 2 and 3 of `ItemToken`. |
| ItemSets.NoDelimiterTokens | ItemSet.cpp:13-24 | With no delimiter, `find` gives npos, and every extraction returns the whole record and leaves the cursor at npos. |
| ItemSets.OneDelimiterTokens | ItemSet.cpp:13-24 | With one delimiter, the serial token is field 1 and the cursor becomes npos. The quantity token is the name again, and the description is field 1 again. |
| ItemSets.TwoDelimiterTokens | ItemSet.cpp:13-24 | With two delimiters, the serial and quantity tokens are fields 1 and 2. The description wraps around to the name. |
| ItemSets.ThreeTokens | ItemSet.cpp:22-24 | With at least three delimiters, the three tokens after the name are fields 1, 2 and 3 in record order. Field 1 has the delimiter in front when the name is empty. |
| ItemSets.ItemSet.constructor | ItemSet.cpp:10-30 | The name is field 0. The serial seed, quantity and description are tokens 1, 2 and 3 of `ItemToken`, converted by stoul/stoi. For every record they are fields 1, 2 and 3, with the delimiter in front of field 1 when the name is empty, wrapping around to the name when the record has fewer fields. The shared field width grows to the name's length when that is larger. |
| ItemSets.ItemSet.MoveFrom | ItemSet.cpp:35-49 | The new stock takes all four fields, and the source is reset to "", "", 0, 0. |
| ItemSets.ItemSet.Decrement | ItemSet.cpp:71-76 | Quantity falls by exactly 1 and the serial number rises by exactly 1, with no guard. Name and description are unchanged. |
| CustomerOrders.Unfilled | CustomerOrder.h:19-24 | Each new request names its item, holds serial number 0 and is not filled. |
| CustomerOrders.FillPrefix | CustomerOrder.cpp:86-103 | After n iterations of the loop, exactly n requests have been written back. |
| CustomerOrders.Fill | CustomerOrder.cpp:86-103 | A pass writes back one request per request read. It writes at most one report line per request. |
| CustomerOrders.FillLogBound | CustomerOrder.cpp:88-101 | Each of the first n iterations writes at most one report line. |
| CustomerOrders.FillStepFacts | CustomerOrder.cpp:88-101 | Any one iteration leaves the stock alone or decrements it once. It decrements exactly when it fills the request. The filled request then takes the stock's serial number from before the decrement, which the Filled line also shows. |
| CustomerOrders.FillLeavesOtherItems | CustomerOrder.cpp:86-88 | A pass keeps every item name, leaves requests for other items untouched, and keeps the stock's name and description. |
| CustomerOrders.FillReportsEachRequest | CustomerOrder.cpp:86-103 | A pass writes exactly one line per request for the stock's item, each naming the customer, product and item. |
| CustomerOrders.FillNeverUnfills | CustomerOrder.cpp:94-101 | A request that was filled stays exactly as it was, so filled never reverts to false. |
| CustomerOrders.FillKeepsUnfilled | CustomerOrder.cpp:96-101 | A request that a pass leaves unfilled comes out exactly as it went in, serial number included: the serial is written only when the request is filled. |
| CustomerOrders.FillStockLockstep | CustomerOrder.cpp:90-100 | The stock has been decremented once per Filled line. There are as many Filled lines as newly filled requests. A quantity that started non-negative stays non-negative. |
| CustomerOrders.FillHandsOutConsecutiveSerials | CustomerOrder.cpp:98-101 | Each Filled line shows the starting serial number plus the number of Filled lines before it. |
| CustomerOrders.FillRecordsSerials | CustomerOrder.cpp:98-100 | Each newly filled request holds the starting serial number plus the number of requests filled before it. |
| CustomerOrders.FillCount | CustomerOrder.cpp:86-103 | With q >= 0 units in stock, a pass fills exactly min(u, q) requests, where u is the number of unfilled requests for the item. |
| CustomerOrders.FillFillsInOrder | CustomerOrder.cpp:86-101 | Requests are filled in index order: if a pass fills an unfilled request, every earlier unfilled request for the item is filled too. |
| CustomerOrders.FillStaysOutOfStock | CustomerOrder.cpp:90-91 | Once the stock is exhausted during a pass, it stays as it is for the rest of the pass. |
| CustomerOrders.FillPrefixStable | CustomerOrder.cpp:86-87 | Each iteration changes only its own request: later iterations keep a request as the pass left it. |
| CustomerOrders.FillOutOfStock | CustomerOrder.cpp:90-91 | With quantity 0, no request and no stock changes. The log is then exactly one OutOfStock line per request for the item, in order, each with the request's stored serial. Already-filled requests are included. |
| CustomerOrders.FillAfterOutOfStock | CustomerOrder.cpp:88-91 | Once the stock runs out partway through a pass, the rest of the pass keeps its requests and the stock unchanged. It appends exactly one OutOfStock line per later request for the item, in order, each with the request's stored serial, whether the request is filled or not. |
| CustomerOrders.FillAlreadyFilled | CustomerOrder.cpp:93-95 | With stock left and every request for the item filled, no request and no stock changes. The log is then exactly one AlreadyFilled line per request for the item, in order, each with the request's stored serial. |
| CustomerOrders.FillSaturates | CustomerOrder.cpp:86-103 | After a pass, the stock is exhausted or every request for the item is filled. |
| CustomerOrders.FillWhenSaturated | CustomerOrder.cpp:88-95 | A pass over an order whose stock is exhausted or whose requests for the item are all filled changes neither requests nor stock. |
| CustomerOrders.FillIdempotent | CustomerOrder.cpp:88-95 | A second pass with the resulting stock changes no request and no stock. It only reports: one OutOfStock line per request for the item when the stock ran out, one AlreadyFilled line per request otherwise. |
| CustomerOrders.Label | CustomerOrder.cpp:137-140 | The label is the customer name, '[', the product and ']', with no space. |
| CustomerOrders.LabelDeterminesOrder | CustomerOrder.cpp:137-140 | Two orders whose customer names hold no '[' have the same label only when their customers are equal and their products are equal. |
| CustomerOrders.CustomerOrder.Empty | CustomerOrder.cpp:14-17 | The default order has no customer, no product and no requests. |
| CustomerOrders.CustomerOrder.constructor | CustomerOrder.cpp:21-43 | The customer is field 0. The product is field 1, with the delimiter in front when field 0 is empty. The requests are fields 2 onwards, in order, unfilled with serial 0, one per delimiter past the first. |
| CustomerOrders.CustomerOrder.ReadItems | CustomerOrder.cpp:36-39 | The item loop reads every remaining field, in order, into a fresh request array. |
| CustomerOrders.CustomerOrder.FromRecord | CustomerOrder.cpp:33-42 | No delimiter at all fails, since the item count wraps. Exactly one delimiter throws "no items". Otherwise the order has the constructor's contents. |
| CustomerOrders.CustomerOrder.FillItem | CustomerOrder.cpp:84-106 | The in-place loop leaves the requests, the stock and the report exactly as the fold `Fill` gives them. |
| CustomerOrders.CustomerOrder.IsFilled | CustomerOrder.cpp:110-116 | True exactly when every request is filled, so true for an order with no requests. |
| CustomerOrders.CustomerOrder.IsItemFilled | CustomerOrder.cpp:121-132 | True exactly when every request for the name is filled. So it is true when no request has that name. |
| CustomerOrders.CustomerOrder.GetNameProduct | CustomerOrder.cpp:137-140 | Returns the label of the order's customer and product. |
| Stations.Station.constructor | Station.cpp:8-12 | The stock is built from the record, the station takes its item's name, and the queue starts empty. The shared field width grows to the name's length when that is larger. |
| Stations.Station.GetName | Station.cpp:29-31 | Returns the inventory's name, which is the station's name. |
| Stations.Station.Fill | Station.cpp:22-25 | On an empty queue nothing changes. Otherwise the front order gets one `fillItem` pass with the station's stock, and the orders behind it are unchanged. Afterwards the station can release the front order. |
| Stations.Station.HasAnOrderToRelease | Station.cpp:36-45 | False on an empty queue. Otherwise true exactly when the stock is exhausted or every request of the front order for the station's item is filled. |
| Stations.Station.Decrement | Station.cpp:46-49 | Only the inventory is decremented, and the queue is unchanged. |
| Stations.Station.Enqueue | Station.cpp:52-55 | The order joins the back of the queue. The queued orders and the inventory are unchanged. |
| Stations.Station.Pop | Station.cpp:57-67 | On an empty queue it returns false and leaves the queue and `ready` as they were. Otherwise it returns whether the front's requests for the station's item are filled, hands over the old front and leaves the rest of the queue in order. |

## Left out

- `std::stoul` and `std::stoi` are parameters of the `ItemSet` and `Station` constructors: `toSerial` and `toQuantity`. Conversion failure (`invalid_argument`, `out_of_range`) is not modelled.
- Strings are sequences of Unicode characters, while `std::string::length()` counts bytes. So `|name|` in the field-width update (ItemSet.cpp:28-29) differs from the source's length for a name with non-ASCII characters.
- Integer widths are not modelled. Serial numbers are `nat` in the stock and `int` in a request, and the quantity is `int`. Their narrowing (`unsigned long` to `unsigned int` to `int`) is out of the model, and so is the unsigned getter over an `int` quantity.
- `Utilities`'s static members are one `Utilities` object in the model: the object is created once and passed to every constructor that reads or updates the shared settings. Its constructor stands for the static initialisers (Utilities.cpp:9-10), not for the empty default constructor (Utilities.cpp:15), which the model does not need. Nothing in the model forces every caller to use the same object, so sharing between instances is not modelled: a caller could pass two different objects.
- Display and validation output are not modelled, because they are presentation only:
  - `CustomerOrder::display`
  - `ItemSet::display`
  - `Station::display`
  - `Station::validate`
  - `std::setw` formatting
- The text of the `fillItem` report is not modelled: each line is a `Report` value.
- `CustomerOrder`'s static `m_fieldWidth` is not modelled, because only display reads it (CustomerOrder.cpp:28-29). The `ItemSet` constructor's field-width update is modelled.
- Raw `new[]`/`delete[]`, the destructor and the `CustomerOrder` move constructor/assignment are not modelled, and the nulled pointer of a moved-from order does not exist in the model. Instead:
  - The queue holds references to orders.
  - `Valid` demands that no two queued orders share an item array.
  - The distinctness holds only within one station's queue. An order may be queued at two stations at once in the model; keeping a single owner is left to the line manager that drives the stations.
  - Station.pop's `ready = std::move(front)` is the returned `released` reference.
- The failing allocation for a record with no delimiter (`0 - 1` wraps before `new[]`) is the `BadArrayLength` error of `CustomerOrder.FromRecord`. The constructor itself requires at least two delimiters, and `FromRecord` returns the error kinds for the cases the source throws on.
- The item getters (`getName`, `getSerialNumber`, `getQuantity`) and the `Utilities` getters are read functions without contracts of their own: they return the field.
- The line manager that drives the stations, and Station.h, are not part of this model.
