/**
 * The stock of one station (class ItemSet): an item name, a description, the
 * next serial number to hand out and the quantity left. Its one mutator,
 * prefix operator--, lowers the quantity and raises the serial number in
 * lockstep, with no guard of its own.
 */
module ItemSets {
  import opened Utilities

  /** The value an ItemSet holds. */
  datatype Stock = Stock(name: string, description: string, serialNumber: nat, quantity: int)

  /** What one operator-- does to a stock's value. */
  function Decremented(s: Stock): Stock {
    s.(quantity := s.quantity - 1, serialNumber := s.serialNumber + 1)
  }

  /** The value after `n` chained decrements, --(--(...s)). */
  function DecrementedTimes(s: Stock, n: nat): Stock {
    if n == 0 then s else Decremented(DecrementedTimes(s, n - 1))
  }

  /** `n` chained decrements lower the quantity by `n` and raise the serial by `n`. */
  lemma {:induction false} DecrementedTimesShifts(s: Stock, n: nat)
    ensures DecrementedTimes(s, n)
            == s.(quantity := s.quantity - n, serialNumber := s.serialNumber + n)
  {
    if n > 0 {
      DecrementedTimesShifts(s, n - 1);
    }
  }

  /**
   * Successive decrements of one stock hand out strictly increasing, and so
   * distinct, serial numbers, while the quantity strictly falls.
   */
  lemma DecrementsHandOutDistinctSerials(s: Stock, m: nat, n: nat)
    requires m < n
    ensures DecrementedTimes(s, m).serialNumber < DecrementedTimes(s, n).serialNumber
    ensures DecrementedTimes(s, m).quantity > DecrementedTimes(s, n).quantity
  {
    DecrementedTimesShifts(s, m);
    DecrementedTimesShifts(s, n);
  }

  /**
   * Token `k` (k >= 1) that extractToken yields after the item name. The
   * cursor visits the delimiters in turn and, once it is npos, wraps to the
   * start of the record, so token k is field k modulo the number of fields.
   * Field 1 keeps the delimiter in front when the record starts with it.
   */
  function ItemToken(fields: seq<string>, d: char, k: nat): (t: string)
    requires |fields| >= 1
    ensures k < |fields| ==> t == (if k == 1 && fields[0] == [] then [d] + fields[1] else fields[k])
  {
    var j := k % |fields|;
    if j == 1 && fields[0] == [] then [d] + fields[1] else fields[j]
  }

  /**
   * The three tokens the ItemSet constructor extracts after the name, from
   * the cursor at the first delimiter (npos when there is none), are tokens
   * 1, 2 and 3 of ItemToken: fields 1, 2 and 3 when the record has at least
   * three delimiters, and fields that wrap around to the name otherwise.
   */
  lemma ItemTokens(record: string, d: char)
    ensures var fields := Split(record, d);
      var serial := ExtractToken(record, Find(record, d, 0), d);
      var quantity := ExtractToken(record, serial.1, d);
      var description := ExtractToken(record, quantity.1, d);
      && serial.0 == ItemToken(fields, d, 1)
      && quantity.0 == ItemToken(fields, d, 2)
      && description.0 == ItemToken(fields, d, 3)
  {
    var n := |Delimiters(record, d)|;
    if n == 0 {
      NoDelimiterTokens(record, d);
    } else if n == 1 {
      OneDelimiterTokens(record, d);
    } else if n == 2 {
      TwoDelimiterTokens(record, d);
    } else {
      ThreeTokens(record, d);
    }
  }

  /** With no delimiter every token is the whole record, the only field. */
  lemma NoDelimiterTokens(record: string, d: char)
    requires |Delimiters(record, d)| == 0
    ensures var fields := Split(record, d);
      && Find(record, d, 0) == NPos
      && ExtractToken(record, NPos, d) == (fields[0], NPos)
      && ItemToken(fields, d, 1) == ItemToken(fields, d, 2) == ItemToken(fields, d, 3) == fields[0]
  {
    FirstDelimiter(record, d);
    ExtractAtNpos(record, d);
    assert Split(record, d)[0] == Field(record, d, 0);
  }

  /**
   * With one delimiter the tokens are field 1, then the name again once the
   * cursor wraps, then field 1 again.
   */
  lemma OneDelimiterTokens(record: string, d: char)
    requires |Delimiters(record, d)| == 1
    ensures var ds := Delimiters(record, d);
      var fields := Split(record, d);
      && Find(record, d, 0) == Pos(ds[0])
      && ExtractToken(record, Pos(ds[0]), d) == (ItemToken(fields, d, 1), NPos)
      && ExtractToken(record, NPos, d) == (ItemToken(fields, d, 2), Pos(ds[0]))
      && ItemToken(fields, d, 3) == ItemToken(fields, d, 1)
  {
    HeaderTokens(record, d);
    ExtractAtNpos(record, d);
    assert Split(record, d)[0] == Field(record, d, 0);
  }

  /**
   * With two delimiters the tokens are fields 1 and 2, then the name once
   * the cursor wraps.
   */
  lemma TwoDelimiterTokens(record: string, d: char)
    requires |Delimiters(record, d)| == 2
    ensures var ds := Delimiters(record, d);
      var fields := Split(record, d);
      && Find(record, d, 0) == Pos(ds[0])
      && ExtractToken(record, Pos(ds[0]), d) == (ItemToken(fields, d, 1), Pos(ds[1]))
      && ExtractToken(record, Pos(ds[1]), d) == (ItemToken(fields, d, 2), NPos)
      && ExtractToken(record, NPos, d).0 == ItemToken(fields, d, 3)
  {
    HeaderTokens(record, d);
    ExtractSplitField(record, d, 1);
    ExtractAtNpos(record, d);
    assert Split(record, d)[0] == Field(record, d, 0);
  }

  /**
   * With three delimiters or more the tokens are fields 1, 2 and 3, with
   * the delimiter in front of field 1 when the name is empty.
   */
  lemma ThreeTokens(record: string, d: char)
    requires |Delimiters(record, d)| >= 3
    ensures var ds := Delimiters(record, d);
      var fields := Split(record, d);
      && Find(record, d, 0) == Pos(ds[0])
      && ExtractToken(record, Pos(ds[0]), d) == (ItemToken(fields, d, 1), Pos(ds[1]))
      && ExtractToken(record, Pos(ds[1]), d) == (ItemToken(fields, d, 2), Pos(ds[2]))
      && ExtractToken(record, Pos(ds[2]), d).0 == ItemToken(fields, d, 3)
  {
    HeaderTokens(record, d);
    ExtractSplitField(record, d, 1);
    ExtractSplitField(record, d, 2);
  }

  class ItemSet {
    var name: string
    var description: string
    var serialNumber: nat
    var quantity: int

    function State(): Stock
      reads this
    {
      Stock(name, description, serialNumber, quantity)
    }

    /**
     * Builds the stock from a record whose fields are, in order, the item
     * name, the serial-number seed, the quantity and the description, split
     * at the delimiter `utility` holds. `toSerial` and `toQuantity` stand for
     * std::stoul and std::stoi. The shared field width grows to the length of
     * the item name when that is longer.
     */
    constructor (record: string, utility: Utilities, toSerial: string -> nat, toQuantity: string -> int)
      modifies utility
      ensures var fields := Split(record, utility.delimiter);
        && name == fields[0]
        && serialNumber == toSerial(ItemToken(fields, utility.delimiter, 1))
        && quantity == toQuantity(ItemToken(fields, utility.delimiter, 2))
        && description == ItemToken(fields, utility.delimiter, 3)
      ensures utility.delimiter == old(utility.delimiter)
      ensures utility.fieldWidth == if old(utility.fieldWidth) < |name| then |name| else old(utility.fieldWidth)
    {
      var delim := utility.GetDelimiter();
      FirstDelimiter(record, delim);
      var cursor := Find(record, delim, 0);
      var itemName := record[..if cursor.Pos? then cursor.index else |record|];
      name := itemName;
      ItemTokens(record, delim);
      // extractToken hands back the token and moves the cursor
      var serialToken := ExtractToken(record, cursor, delim);
      serialNumber := toSerial(serialToken.0);
      cursor := serialToken.1;
      var quantityToken := ExtractToken(record, cursor, delim);
      quantity := toQuantity(quantityToken.0);
      cursor := quantityToken.1;
      var descriptionToken := ExtractToken(record, cursor, delim);
      description := descriptionToken.0;
      new;
      if utility.GetFieldWidth() < |itemName| {
        utility.SetFieldWidth(|itemName|);
      }
    }

    /** The move constructor: takes over all four fields and empties `other`. */
    constructor MoveFrom(other: ItemSet)
      modifies other
      ensures State() == old(other.State())
      ensures other.State() == Stock("", "", 0, 0)
    {
      name := other.name;
      description := other.description;
      serialNumber := other.serialNumber;
      quantity := other.quantity;
      new;
      other.name := "";
      other.description := "";
      other.serialNumber := 0;
      other.quantity := 0;
    }

    function GetName(): string
      reads this
    {
      name
    }

    function GetSerialNumber(): nat
      reads this
    {
      serialNumber
    }

    function GetQuantity(): int
      reads this
    {
      quantity
    }

    /** Prefix operator--: one unit out of stock, one serial number used. */
    method Decrement()
      modifies this
      ensures State() == Decremented(old(State()))
      ensures quantity == old(quantity) - 1 && serialNumber == old(serialNumber) + 1
      ensures name == old(name) && description == old(description)
    {
      quantity := quantity - 1;
      serialNumber := serialNumber + 1;
    }
  }
}
