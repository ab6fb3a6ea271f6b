/**
 * A station of the assembly line (class Station): the stock of one item and
 * the queue of customer orders waiting at the station. The station fills the
 * order at the front of the queue from its stock and releases it once the
 * stock is exhausted or every request for its item is filled.
 */
module Stations {
  import opened Utilities
  import opened ItemSets
  import opened CustomerOrders

  class Station {
    /** m_stationInventory. */
    const inventory: ItemSet
    /** m_stationName: a copy of the item name taken at construction. */
    const name: string
    /** m_stationCustomerOrders, front first. */
    var orders: seq<CustomerOrder>

    /**
     * The station's name is its item's name, and every queued order owns its
     * requests: no two queued orders share an item array (the source moves
     * orders into and out of the queue).
     */
    ghost predicate Valid()
      reads this, inventory
    {
      && name == inventory.name
      && forall i, j :: 0 <= i < j < |orders| ==> orders[i].items != orders[j].items
    }

    /** Builds the stock from `record` and names the station after its item; the queue starts empty. */
    constructor (record: string, utility: Utilities, toSerial: string -> nat, toQuantity: string -> int)
      modifies utility
      ensures Valid() && fresh(inventory) && orders == []
      ensures var fields := Split(record, utility.delimiter);
        && name == fields[0]
        && inventory.serialNumber == toSerial(ItemToken(fields, utility.delimiter, 1))
        && inventory.quantity == toQuantity(ItemToken(fields, utility.delimiter, 2))
        && inventory.description == ItemToken(fields, utility.delimiter, 3)
      ensures utility.delimiter == old(utility.delimiter)
      ensures utility.fieldWidth == if old(utility.fieldWidth) < |name| then |name| else old(utility.fieldWidth)
    {
      var stock := new ItemSet(record, utility, toSerial, toQuantity);
      inventory := stock;
      name := stock.GetName();
      orders := [];
    }

    /** getName: the name of the station's item. */
    function GetName(): (r: string)
      reads this, inventory
      requires Valid()
      ensures r == name
    {
      inventory.GetName()
    }

    /**
     * fill: one fillItem pass of the order at the front of the queue against
     * the station's stock, when there is an order. Afterwards the station can
     * release that order.
     */
    method Fill() returns (log: seq<Report>)
      requires Valid()
      modifies inventory, if |orders| > 0 then {orders[0].items} else {}
      ensures Valid() && orders == old(orders)
      ensures |orders| == 0 ==> log == [] && inventory.State() == old(inventory.State())
      ensures |orders| > 0 ==>
        var front := orders[0];
        var r := CustomerOrders.Fill(old(front.items[..]), old(inventory.State()), front.customerName, front.productName);
        front.items[..] == r.requests && inventory.State() == r.stock && log == r.log
      ensures |orders| > 0 ==> Saturated(orders[0].items[..], inventory.State())
      ensures forall k :: 1 <= k < |orders| ==> orders[k].items[..] == old(orders[k].items[..])
    {
      log := [];
      if |orders| > 0 {
        var front := orders[0];
        ghost var requests := front.items[..];
        ghost var stock := inventory.State();
        log := front.FillItem(inventory);
        FillLeavesOtherItems(requests, stock, front.customerName, front.productName, |requests|);
        FillSaturates(requests, stock, front.customerName, front.productName, |requests|);
      }
    }

    /**
     * hasAnOrderToRelease: there is an order at the front and either the
     * stock is exhausted or every request of that order for the station's
     * item is filled.
     */
    method HasAnOrderToRelease() returns (release: bool)
      requires Valid()
      ensures release <==> |orders| > 0 && Saturated(orders[0].items[..], inventory.State())
    {
      release := false;
      if |orders| > 0 {
        if inventory.GetQuantity() == 0 {
          release := true;
        } else {
          release := orders[0].IsItemFilled(name);
        }
      }
    }

    /** Prefix operator--: one unit out of the station's stock. */
    method Decrement()
      requires Valid()
      modifies inventory
      ensures Valid() && orders == old(orders)
      ensures inventory.State() == Decremented(old(inventory.State()))
    {
      inventory.Decrement();
    }

    /** operator+=: the order moves to the back of the queue. */
    method Enqueue(order: CustomerOrder)
      requires Valid()
      requires forall k :: 0 <= k < |orders| ==> orders[k].items != order.items
      modifies this
      ensures Valid() && orders == old(orders) + [order]
      ensures inventory.State() == old(inventory.State())
    {
      orders := orders + [order];
    }

    /**
     * pop: with an order at the front, reports whether its requests for the
     * station's item are filled and moves it out of the queue into the
     * caller's order, which `released` stands for; with an empty queue the
     * caller's order stays as it is and the answer is false.
     */
    method Pop(ready: CustomerOrder) returns (filled: bool, released: CustomerOrder)
      requires Valid()
      modifies this
      ensures Valid()
      ensures |old(orders)| == 0 ==> !filled && released == ready && orders == old(orders)
      ensures |old(orders)| > 0 ==>
        && filled == ItemFilled(old(orders)[0].items[..], name)
        && released == old(orders)[0]
        && orders == old(orders)[1..]
      ensures inventory.State() == old(inventory.State())
    {
      filled := false;
      released := ready;
      if |orders| > 0 {
        filled := orders[0].IsItemFilled(name);
        released := orders[0];
        orders := orders[1..];
      }
    }
  }
}
