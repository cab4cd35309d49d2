/** One book: the orders by reference and two sides of levels, which always say the same. */
module Book {
  import opened Words
  import opened Wrappers
  import opened FlatHashMap
  import opened Ladder
  import opened LadderOps
  import opened PriceWindow
  import opened BookSpec
  import opened BookSides
  import opened BookCheck

  const DEFAULT_SPAN: u32 := 1024

  class OrderBook {
    const orders: OrderIndex
    const bids: PriceLevels
    const asks: PriceLevels
    var orderShares: u64
    var levelShares: u64
    var levelOrders: u64

    /** The live orders by reference: what the book means. */
    ghost function Live(): Orders
      reads this, orders
    {
      orders.Contents()
    }

    ghost predicate SidesValid()
      reads bids, asks
    {
      && bids.Valid() && asks.Valid()
      && bids != asks
      && bids.side == Buy && asks.side == Sell
    }

    ghost predicate Valid()
      reads this, orders, bids, asks
    {
      && orders.Valid()
      && SidesValid()
      && Consistent(Live(), bids.State(), asks.State(), orderShares, levelShares, levelOrders)
    }

    /** Both sides hold whole cents only, their best level in the array and every far level strictly worse. */
    ghost predicate WindowsHoldBest()
      requires SidesValid()
      reads bids, asks
    {
      bids.WindowHoldsBest() && asks.WindowHoldsBest()
    }

    constructor (hash: Hash)
      ensures Valid() && Live() == map[] && WindowsHoldBest()
      ensures fresh(orders) && fresh(bids) && fresh(asks)
    {
      orders := new OrderIndex(hash);
      bids := new PriceLevels(Buy, 0, DEFAULT_SPAN);
      asks := new PriceLevels(Sell, 0, DEFAULT_SPAN);
      orderShares, levelShares, levelOrders := 0, 0, 0;
      new;
      EmptyBook(bids.State(), asks.State());
    }

    method Add(ref: u64, side: Side, shares: u32, price: u32) returns (r: ApplyResult)
      requires Valid() && shares < SIDE_BIT && |Live()| + 1 < TWO_32
      modifies this, orders, bids, asks
      ensures Valid()
      ensures r == AddResult(old(Live()), ref)
      ensures Live() == Added(old(Live()), ref, side == Buy, shares, price)
      ensures AddEffect(old(Live()), Live(), r, ref, side == Buy, shares, price)
      ensures old(WindowsHoldBest()) && price % TICK == 0 ==> WindowsHoldBest()
    {
      ghost var m := Live();
      AddLaw(m, ref, side == Buy, shares, price);
      var inserted := orders.Insert(ref, shares, price, side == Buy);
      if !inserted {
        return DuplicateRef;
      }
      Credit(side, shares, price, m, ref);
      return Applied;
    }

    /** `add` once the index holds the order: the level and the totals follow. */
    method Credit(side: Side, shares: u32, price: u32, ghost m: Orders, ghost ref: u64)
      requires orders.Valid() && SidesValid()
      requires Consistent(m, bids.State(), asks.State(), orderShares, levelShares, levelOrders)
      requires shares < SIDE_BIT && |m| + 1 < TWO_32 && ref != 0 && ref !in m
      requires Live() == m[ref := Order(Packed(side == Buy, shares), price)]
      modifies this, bids, asks
      ensures Valid() && Live() == old(Live())
      ensures old(WindowsHoldBest()) && price % TICK == 0 ==> WindowsHoldBest()
    {
      AddFits(m, bids.State(), asks.State(), price, shares);
      TotalInsert(m, ref, Order(Packed(side == Buy, shares), price));
      orderShares := orderShares + shares;
      AddLevel(side, shares, price, m, ref);
      levelShares := levelShares + shares;
      levelOrders := levelOrders + 1;
    }

    /** The level half of `add`. */
    method AddLevel(side: Side, shares: u32, price: u32, ghost m: Orders, ghost ref: u64)
      requires SidesValid() && SideMatches(bids.State(), m, true) && SideMatches(asks.State(), m, false)
      requires shares < SIDE_BIT && |m| + 1 < TWO_32 && ref !in m
      modifies bids, asks
      ensures SidesValid()
      ensures var o := Order(Packed(side == Buy, shares), price);
        SideMatches(bids.State(), m[ref := o], true) && SideMatches(asks.State(), m[ref := o], false)
      ensures old(WindowsHoldBest()) && price % TICK == 0 ==> WindowsHoldBest()
    {
      ghost var b, a := bids.State(), asks.State();
      ghost var o := Order(Packed(side == Buy, shares), price);
      AddFits(m, b, a, price, shares);
      if side == Buy {
        bids.Add(price, shares);
        SideGains(b, bids.State(), m, ref, o);
        OtherSideKeeps(a, m, ref, o, false);
      } else {
        asks.Add(price, shares);
        SideGains(a, asks.State(), m, ref, o);
        OtherSideKeeps(b, m, ref, o, true);
      }
    }

    /** 'E', 'C' and 'X': an order gives up what is asked for, or all it has, and without shares it is gone. */
    method Reduce(ref: u64, shares: u32) returns (r: ApplyResult)
      requires Valid()
      modifies this, orders, bids, asks
      ensures Valid()
      ensures r == ReduceResult(old(Live()), ref, shares)
      ensures Live() == Reduced(old(Live()), ref, shares)
      ensures ReduceEffect(old(Live()), Live(), r, ref, shares)
      ensures old(WindowsHoldBest()) ==> WindowsHoldBest()
    {
      ghost var m := Live();
      ReduceLaw(m, ref, shares);
      var found := orders.Find(ref);
      if found.None? {
        return UnknownRef;
      }
      var order := orders.slots[found.value].order;
      var clamped := shares > order.Qty();
      var reduceBy := if clamped then order.Qty() else shares;
      ReducedTotals(m, ref, shares);
      Shrink(found.value, ref, shares, reduceBy);
      if order.Qty() == reduceBy {
        Bury(ref);
      }
      return if clamped then ClampedReduce else Applied;
    }

    /** Writes what a reduction leaves into the order's slot. */
    method SetLeft(slot: nat, ref: u64, ghost shares: u32, left: u32)
      requires orders.Valid() && ref in Live() && ref != 0
      requires slot < |orders.slots| && orders.slots[slot] == Slot(ref, Live()[ref])
      requires left == Live()[ref].Qty() - Cut(Live(), ref, shares)
      modifies orders
      ensures orders.Valid() && Live() == old(Live())[ref := Rest(old(Live()), ref, shares)]
    {
      orders.SetShares(slot, Packed(orders.slots[slot].order.Buy(), left));
    }

    /** `reduce` up to the point where a dead order leaves the index. */
    method Shrink(slot: nat, ref: u64, ghost shares: u32, reduceBy: u32)
      requires Valid() && ref in Live()
      requires slot < |orders.slots| && orders.slots[slot] == Slot(ref, Live()[ref]) && ref != 0
      requires reduceBy == Cut(Live(), ref, shares)
      modifies this, orders, bids, asks
      ensures orders.Valid() && SidesValid()
      ensures Live() == old(Live())[ref := Rest(old(Live()), ref, shares)]
      ensures Consistent(Reduced(old(Live()), ref, shares), bids.State(), asks.State(),
                         orderShares, levelShares, levelOrders)
      ensures old(WindowsHoldBest()) ==> WindowsHoldBest()
    {
      ghost var m := Live();
      var order := orders.slots[slot].order;
      var price, buy := order.price, order.Buy();
      var left := order.Qty() - reduceBy;
      ReducedTotals(m, ref, shares);
      SetLeft(slot, ref, shares, left);
      orderShares := orderShares - reduceBy;
      TakeFromLevel(buy, price, reduceBy, left == 0, m, ref, shares);
      if left == 0 {
        levelOrders := levelOrders - 1;
      }
      levelShares := levelShares - reduceBy;
    }

    /** Erases a reference whose shares and order have already left its level. */
    method Bury(ref: u64)
      requires orders.Valid() && SidesValid()
      requires Consistent(Live() - {ref}, bids.State(), asks.State(), orderShares, levelShares, levelOrders)
      modifies orders
      ensures Valid() && Live() == old(Live()) - {ref}
      ensures WindowsHoldBest() == old(WindowsHoldBest())
    {
      var _ := orders.Erase(ref);
    }

    /** The level half of `reduce`: the order leaves the level when it gives up all it has. */
    method TakeFromLevel(buy: bool, price: u32, shares: u32, dies: bool,
                         ghost m: Orders, ghost ref: u64, ghost asked: u32)
      requires SidesValid() && SideMatches(bids.State(), m, true) && SideMatches(asks.State(), m, false)
      requires ref in m && m[ref].Buy() == buy && m[ref].price == price
      requires shares == Cut(m, ref, asked) && dies == (shares == m[ref].Qty())
      modifies bids, asks
      ensures SidesValid()
      ensures SideMatches(bids.State(), Reduced(m, ref, asked), true)
      ensures SideMatches(asks.State(), Reduced(m, ref, asked), false)
      ensures old(WindowsHoldBest()) ==> WindowsHoldBest()
    {
      ghost var b, a := bids.State(), asks.State();
      if buy {
        OrderInLevel(b, m, ref);
        if dies {
          bids.Remove(price, shares);
        } else {
          bids.Reduce(price, shares);
        }
        SideReduced(b, bids.State(), m, ref, asked);
        OtherSideIgnoresReduce(a, m, ref, asked, false);
      } else {
        OrderInLevel(a, m, ref);
        if dies {
          asks.Remove(price, shares);
        } else {
          asks.Reduce(price, shares);
        }
        SideReduced(a, asks.State(), m, ref, asked);
        OtherSideIgnoresReduce(b, m, ref, asked, true);
      }
    }

    /** The level half of removing order `ref`. */
    method RemoveLevel(buy: bool, price: u32, shares: u32, ghost m: Orders, ghost ref: u64)
      requires SidesValid() && SideMatches(bids.State(), m, true) && SideMatches(asks.State(), m, false)
      requires ref in m && m[ref].Buy() == buy && m[ref].price == price && m[ref].Qty() == shares
      modifies bids, asks
      ensures SidesValid()
      ensures SideMatches(bids.State(), m - {ref}, true) && SideMatches(asks.State(), m - {ref}, false)
      ensures old(WindowsHoldBest()) ==> WindowsHoldBest()
    {
      ghost var b, a := bids.State(), asks.State();
      if buy {
        OrderInLevel(b, m, ref);
        bids.Remove(price, shares);
        SideLoses(b, bids.State(), m, ref);
        OtherSideIgnoresRemove(a, m, ref, false);
      } else {
        OrderInLevel(a, m, ref);
        asks.Remove(price, shares);
        SideLoses(a, asks.State(), m, ref);
        OtherSideIgnoresRemove(b, m, ref, true);
      }
    }

    /** 'D': the order is gone, with all it has. */
    method Remove(ref: u64) returns (r: ApplyResult)
      requires Valid()
      modifies this, orders, bids, asks
      ensures Valid()
      ensures r == RemoveResult(old(Live()), ref)
      ensures Live() == Removed(old(Live()), ref)
      ensures RemoveEffect(old(Live()), Live(), r, ref)
      ensures old(WindowsHoldBest()) ==> WindowsHoldBest()
    {
      RemoveLaw(Live(), ref);
      var found := orders.Find(ref);
      if found.None? {
        return UnknownRef;
      }
      TakeOut(found.value, ref);
      return Applied;
    }

    /** `remove` of the live order in a slot. */
    method TakeOut(slot: nat, ref: u64)
      requires Valid() && ref in Live() && slot < |orders.slots| && orders.slots[slot] == Slot(ref, Live()[ref])
      modifies this, orders, bids, asks
      ensures Valid() && Live() == old(Live()) - {ref}
      ensures old(WindowsHoldBest()) ==> WindowsHoldBest()
    {
      var order := orders.slots[slot].order;
      var qty, price, buy := order.Qty(), order.price, order.Buy();
      Debit(buy, price, qty, ref);
      Bury(ref);
    }

    /** `remove` up to the point where the order leaves the index: the totals and the level give it up. */
    method Debit(buy: bool, price: u32, qty: u32, ghost ref: u64)
      requires Valid() && ref in Live()
      requires Live()[ref].Buy() == buy && Live()[ref].price == price && Live()[ref].Qty() == qty
      modifies this, bids, asks
      ensures SidesValid()
      ensures Consistent(Live() - {ref}, bids.State(), asks.State(), orderShares, levelShares, levelOrders)
      ensures old(WindowsHoldBest()) ==> WindowsHoldBest()
    {
      ghost var m := Live();
      TotalSplit(m, ref);
      orderShares := orderShares - qty;
      RemoveLevel(buy, price, qty, m, ref);
      levelShares := levelShares - qty;
      levelOrders := levelOrders - 1;
    }

    /** 'U': the original goes and the new reference comes, on the same side. */
    method Replace(original: u64, ref: u64, shares: u32, price: u32) returns (r: ApplyResult)
      requires Valid() && shares < SIDE_BIT
      modifies this, orders, bids, asks
      ensures Valid()
      ensures r == ReplaceResult(old(Live()), original, ref)
      ensures Live() == Replaced(old(Live()), original, ref, shares, price)
      ensures ReplaceEffect(old(Live()), Live(), r, original, ref, shares, price)
      ensures old(WindowsHoldBest()) && price % TICK == 0 ==> WindowsHoldBest()
    {
      ReplaceLaw(Live(), original, ref, shares, price);
      var found := orders.Find(original);
      if found.None? {
        return UnknownRef;
      }
      var clash := orders.Find(ref);
      if ref != original && clash.Some? {
        return DuplicateRef;
      }
      var side := if orders.slots[found.value].order.Buy() then Buy else Sell;
      var removed := Remove(original);
      if removed != Applied {
        return removed;
      }
      r := Add(ref, side, shares, price);
    }

    method BestBid() returns (r: Option<Level>)
      requires Valid()
      ensures IsBestOf(Live(), true, r)
    {
      r := bids.BestLevel();
      if r.Some? {
        BestOfOrders(bids.State(), Live(), true, r.value.price);
      } else {
        NoOrders(bids.State(), Live(), true);
      }
    }

    method BestAsk() returns (r: Option<Level>)
      requires Valid()
      ensures IsBestOf(Live(), false, r)
    {
      r := asks.BestLevel();
      if r.Some? {
        BestOfOrders(asks.State(), Live(), false, r.value.price);
      } else {
        NoOrders(asks.State(), Live(), false);
      }
    }

    method LiveOrders() returns (n: nat)
      requires Valid()
      ensures n == |Live()|
    {
      EntryCount(orders.hash, orders.slots, |orders.slots|);
      n := orders.size;
    }

    method SharesOf(ref: u64) returns (shares: u32)
      requires Valid()
      ensures shares == Quantity(Live(), ref)
    {
      var found := orders.Find(ref);
      shares := if found.None? then 0 else orders.slots[found.value].order.Qty();
    }

    method RestingShares() returns (total: u64)
      requires Valid()
      ensures total == Total(Live())
    {
      total := orderShares;
    }

    method Reserve()
      requires Valid()
      modifies bids, asks
      ensures Valid() && Live() == old(Live())
      ensures old(WindowsHoldBest()) ==> WindowsHoldBest()
    {
      ghost var b, a := bids.State(), asks.State();
      bids.Reserve();
      asks.Reserve();
      SameTableMatches(b, bids.State(), Live(), true);
      SameTableMatches(a, asks.State(), Live(), false);
    }

    /** The constant-time check. On a valid book it cannot fail. */
    method CheckInvariantsFast() returns (ok: bool)
      requires orders.Valid()
      ensures ok <==> orderShares == levelShares && |Live()| == levelOrders
    {
      EntryCount(orders.hash, orders.slots, |orders.slots|);
      ok := orderShares == levelShares && orders.size == levelOrders;
    }

    /**
     The full check, of an index and two sides that need not agree: it decides whether they do. On a valid
     book it fails only when some level is made of orders without shares.
     */
    method CheckInvariants() returns (ok: bool)
      requires orders.Valid() && SidesValid() && |Live()| < TWO_32
      ensures ok <==> Agree(Live(), bids.State(), asks.State(), orderShares, levelShares, levelOrders)
      ensures Valid() ==> (ok <==> NoHollowLevel(Live()))
    {
      var fast := CheckInvariantsFast();
      if !fast {
        return false;
      }
      EntryCount(orders.hash, orders.slots, |orders.slots|);
      var computedBids, computedAsks := Rebuild(orders);
      ghost var b, a := bids.State(), asks.State();
      if SideMatches(b, Live(), true) && SideMatches(a, Live(), false) {
        HollowLevels(Live(), b, a);
      }
      ok := SideAgrees(bids, computedBids, Live(), true);
      if ok {
        ok := SideAgrees(asks, computedAsks, Live(), false);
      }
    }
  }

  /** Index, sides and running totals agree, and no level is hollow; the totals are not compared with the orders. */
  ghost predicate Agree(m: Orders, b: Grid, a: Grid, orderShares: u64, levelShares: u64, levelOrders: u64)
    requires Shape(b) && Shape(a)
  {
    && SideMatches(b, m, true) && SideMatches(a, m, false) && NoHollowLevel(m)
    && orderShares == levelShares && levelOrders == |m|
  }

  /** An add without shares makes a level without shares, and the full check of the book then fails. */
  method ZeroSharesFailCheck(hash: Hash) returns (b: OrderBook, ok: bool)
    ensures b.Valid() && b.Live() == Added(map[], 1, true, 0, 5000) && !ok
  {
    b := new OrderBook(hash);
    var r := b.Add(1, Buy, 0, 5000);
    ok := b.CheckInvariants();
    ZeroSharesHollow();
  }

  /** The cross-structure invariant: both sides are the aggregates of the index, and the totals agree. */
  ghost predicate Consistent(m: Orders, b: Grid, a: Grid, orderShares: u64, levelShares: u64, levelOrders: u64)
    requires Shape(b) && Shape(a)
  {
    && SideMatches(b, m, true) && SideMatches(a, m, false)
    && orderShares == levelShares == Total(m)
    && levelOrders == |m| < TWO_32
    && 0 !in m
  }

  lemma EmptyBook(b: Grid, a: Grid)
    requires Shape(b) && Shape(a) && EmptyTable(b) && EmptyTable(a)
    ensures Consistent(map[], b, a, 0, 0, 0)
  {
  }

  /** No addition of a new order wraps a level or a total. */
  lemma AddFits(m: Orders, b: Grid, a: Grid, price: u32, shares: u32)
    requires Shape(b) && Shape(a) && SideMatches(b, m, true) && SideMatches(a, m, false)
    requires shares < SIDE_BIT && |m| + 1 < TWO_32
    ensures Total(m) + shares < TWO_64
    ensures At(b, price).shares + shares < TWO_64 && At(b, price).orders + 1 < TWO_32
    ensures At(a, price).shares + shares < TWO_64 && At(a, price).orders + 1 < TWO_32
  {
    TallyBound(m, true, price);
    TallyBound(m, false, price);
    assert At(b, price) == TallyOf(m, true, price) && At(a, price) == TallyOf(m, false, price);
  }
}
