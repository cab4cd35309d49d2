/**
 What one order book means: a map from order reference to order, four operations on it, and
 the aggregate the orders make at each side and price.
 */
module BookSpec {
  import opened Words
  import opened Wrappers
  import opened FlatHashMap
  import opened Ladder

  type Orders = map<u64, Order>

  datatype ApplyResult = Applied | UnknownRef | DuplicateRef | ClampedReduce

  // ---- the operations ----

  function Added(m: Orders, ref: u64, buy: bool, shares: u32, price: u32): Orders
    requires shares < SIDE_BIT
  {
    if ref == 0 || ref in m then m else m[ref := Order(Packed(buy, shares), price)]
  }

  function AddResult(m: Orders, ref: u64): ApplyResult {
    if ref == 0 || ref in m then DuplicateRef else Applied
  }

  function Reduced(m: Orders, ref: u64, shares: u32): Orders {
    if ref !in m then m
    else if shares >= m[ref].Qty() then m - {ref}
    else m[ref := Order(Packed(m[ref].Buy(), m[ref].Qty() - shares), m[ref].price)]
  }

  function ReduceResult(m: Orders, ref: u64, shares: u32): ApplyResult {
    if ref !in m then UnknownRef
    else if shares > m[ref].Qty() then ClampedReduce
    else Applied
  }

  function Removed(m: Orders, ref: u64): Orders {
    m - {ref}
  }

  function RemoveResult(m: Orders, ref: u64): ApplyResult {
    if ref in m then Applied else UnknownRef
  }

  function ReplaceResult(m: Orders, original: u64, ref: u64): ApplyResult {
    if original !in m then UnknownRef
    else if ref != original && ref in m then DuplicateRef
    else AddResult(m - {original}, ref)
  }

  function Replaced(m: Orders, original: u64, ref: u64, shares: u32, price: u32): Orders
    requires shares < SIDE_BIT
  {
    if original !in m || (ref != original && ref in m) then m
    else Added(m - {original}, ref, m[original].Buy(), shares, price)
  }

  // ---- aggregates ----

  /** Total quantity of a set of orders. */
  ghost function Total(m: Orders): nat {
    if m == map[] then 0
    else
      var r :| r in m;
      m[r].Qty() + Total(m - {r})
  }

  /** The live orders at one side and price. */
  ghost function Resting(m: Orders, buy: bool, p: u32): Orders {
    map r | r in m && IsAt(m[r], buy, p) :: m[r]
  }

  predicate IsAt(o: Order, buy: bool, p: u32) {
    o.Buy() == buy && o.price == p
  }

  /** The sum and count of the live orders at a side and price. */
  ghost function TallyOf(m: Orders, buy: bool, p: u32): Tally {
    Tally(Total(Resting(m, buy, p)), |Resting(m, buy, p)|)
  }

  lemma {:induction false} TotalSplit(m: Orders, r: u64)
    requires r in m
    ensures Total(m) == m[r].Qty() + Total(m - {r})
    decreases |m|
  {
    var k :| k in m && Total(m) == m[k].Qty() + Total(m - {k});
    if k != r {
      TotalSplit(m - {k}, r);
      TotalSplit(m - {r}, k);
      assert m - {k} - {r} == m - {r} - {k};
    }
  }

  lemma TotalInsert(m: Orders, r: u64, o: Order)
    requires r !in m
    ensures Total(m[r := o]) == Total(m) + o.Qty()
  {
    TotalSplit(m[r := o], r);
    assert m[r := o] - {r} == m;
  }

  lemma {:induction false} TotalBound(m: Orders)
    ensures Total(m) <= |m| * (SIDE_BIT - 1)
    decreases |m|
  {
    if m != map[] {
      var r :| r in m;
      TotalSplit(m, r);
      TotalBound(m - {r});
    }
  }

  lemma RestingInsert(m: Orders, r: u64, o: Order, buy: bool, p: u32)
    requires r !in m
    ensures r !in Resting(m, buy, p)
    ensures Resting(m[r := o], buy, p) == if IsAt(o, buy, p) then Resting(m, buy, p)[r := o] else Resting(m, buy, p)
  {
  }

  /** A new order adds its quantity and one order to its own side and price, and to no other. */
  lemma TallyInsert(m: Orders, r: u64, o: Order, buy: bool, p: u32)
    requires r !in m
    ensures TallyOf(m[r := o], buy, p) ==
      if IsAt(o, buy, p) then Tally(TallyOf(m, buy, p).shares + o.Qty(), TallyOf(m, buy, p).orders + 1)
      else TallyOf(m, buy, p)
  {
    var a := Resting(m, buy, p);
    RestingInsert(m, r, o, buy, p);
    if IsAt(o, buy, p) {
      TotalInsert(a, r, o);
      assert |a[r := o]| == |a| + 1;
    }
  }

  lemma TallySplit(m: Orders, r: u64, buy: bool, p: u32)
    requires r in m
    ensures TallyOf(m, buy, p) ==
      if IsAt(m[r], buy, p)
      then Tally(TallyOf(m - {r}, buy, p).shares + m[r].Qty(), TallyOf(m - {r}, buy, p).orders + 1)
      else TallyOf(m - {r}, buy, p)
  {
    TallyInsert(m - {r}, r, m[r], buy, p);
    assert (m - {r})[r := m[r]] == m;
  }

  lemma {:induction false} SubTotal(a: Orders, m: Orders)
    requires forall r | r in a :: r in m && m[r] == a[r]
    ensures Total(a) <= Total(m) && |a| <= |m|
    decreases |a|
  {
    if a != map[] {
      var r :| r in a;
      TotalSplit(a, r);
      TotalSplit(m, r);
      SubTotal(a - {r}, m - {r});
    }
  }

  /** No side and price holds more than the whole book, and none holds shares without orders. */
  lemma TallyBound(m: Orders, buy: bool, p: u32)
    ensures TallyOf(m, buy, p).orders <= |m|
    ensures TallyOf(m, buy, p).shares <= Total(m) <= |m| * (SIDE_BIT - 1)
    ensures TallyOf(m, buy, p).orders == 0 ==> TallyOf(m, buy, p).shares == 0
  {
    SubTotal(Resting(m, buy, p), m);
    TotalBound(m);
  }

  /** What a reduction takes: no more than the order holds. */
  function Cut(m: Orders, ref: u64, shares: u32): u32
    requires ref in m
  {
    if shares > m[ref].Qty() then m[ref].Qty() else shares
  }

  lemma MapFacts(m: Orders, ref: u64, o: Order)
    requires ref in m
    ensures m[ref := o] - {ref} == m - {ref}
    ensures (m - {ref})[ref := o] == m[ref := o] && |m[ref := o]| == |m|
    ensures |m - {ref}| == |m| - 1
  {
    assert m == (m - {ref})[ref := m[ref]];
    assert m[ref := o].Keys == m.Keys;
  }

  /** The order that a partial reduction leaves. */
  function Rest(m: Orders, ref: u64, shares: u32): Order
    requires ref in m
  {
    Order(Packed(m[ref].Buy(), m[ref].Qty() - Cut(m, ref, shares)), m[ref].price)
  }

  /** What a reduction leaves, and by how much the totals fall. */
  lemma ReducedTotals(m: Orders, ref: u64, shares: u32)
    requires ref in m
    ensures Total(Reduced(m, ref, shares)) + Cut(m, ref, shares) == Total(m)
    ensures |Reduced(m, ref, shares)| + Digit(m[ref].Qty() == Cut(m, ref, shares)) == |m|
    ensures Reduced(m, ref, shares) ==
      if m[ref].Qty() == Cut(m, ref, shares) then m[ref := Rest(m, ref, shares)] - {ref}
      else m[ref := Rest(m, ref, shares)]
  {
    MapFacts(m, ref, Rest(m, ref, shares));
    TotalSplit(m, ref);
    TotalInsert(m - {ref}, ref, Rest(m, ref, shares));
  }

  lemma AddedTotals(m: Orders, ref: u64, buy: bool, shares: u32, price: u32)
    requires shares < SIDE_BIT && 0 !in m
    ensures 0 !in Added(m, ref, buy, shares, price)
    ensures Total(Added(m, ref, buy, shares, price)) == Total(m) + if AddResult(m, ref) == Applied then shares else 0
  {
    if AddResult(m, ref) == Applied {
      TotalInsert(m, ref, Order(Packed(buy, shares), price));
    }
  }

  lemma RemovedTotals(m: Orders, ref: u64)
    ensures Total(Removed(m, ref)) + Quantity(m, ref) == Total(m)
  {
    if ref in m {
      TotalSplit(m, ref);
    } else {
      assert m - {ref} == m;
    }
  }

  /** A reduction takes from the total what it takes from its order. */
  lemma FallTotals(m: Orders, ref: u64, shares: u32)
    requires 0 !in m
    ensures 0 !in Reduced(m, ref, shares)
    ensures Quantity(Reduced(m, ref, shares), ref) <= Quantity(m, ref)
    ensures Total(Reduced(m, ref, shares)) + Quantity(m, ref) - Quantity(Reduced(m, ref, shares), ref) == Total(m)
  {
    if ref in m {
      ReducedTotals(m, ref, shares);
      QuantityAfter(m, ref, shares);
    }
  }

  lemma QuantityAfter(m: Orders, ref: u64, shares: u32)
    requires ref in m
    ensures Quantity(Reduced(m, ref, shares), ref) == m[ref].Qty() - Cut(m, ref, shares)
  {
  }

  /** What a replace does to the total. */
  lemma ReplacedTotals(m: Orders, original: u64, ref: u64, shares: u32, price: u32)
    requires shares < SIDE_BIT && 0 !in m
    ensures 0 !in Replaced(m, original, ref, shares, price)
    ensures Total(Replaced(m, original, ref, shares, price)) ==
      match ReplaceResult(m, original, ref)
      case Applied => Total(m) - m[original].Qty() + shares
      case _ => if original in m && ref == 0 then Total(m) - m[original].Qty() else Total(m)
  {
    if original in m && (ref == original || ref !in m) {
      TotalSplit(m, original);
      if ref != 0 {
        TotalInsert(m - {original}, ref, Order(Packed(m[original].Buy(), shares), price));
      }
    }
  }

  // ---- what an operation does to the levels ----

  /** One order of `shares` joins the level at a side and price; no other level changes. */
  ghost predicate LevelGains(m: Orders, m': Orders, buy: bool, price: u32, shares: u32) {
    forall b: bool, p: u32 {:trigger TallyOf(m', b, p)} ::
      TallyOf(m', b, p) ==
        if b == buy && p == price then Tally(TallyOf(m, b, p).shares + shares, TallyOf(m, b, p).orders + 1)
        else TallyOf(m, b, p)
  }

  /** The level of order `o` loses so many shares and so many orders; no other level changes. */
  ghost predicate LevelLoses(m: Orders, m': Orders, o: Order, shares: u32, orders: nat) {
    forall b: bool, p: u32 {:trigger TallyOf(m', b, p)} ::
      TallyOf(m, b, p) ==
        if b == o.Buy() && p == o.price then Tally(TallyOf(m', b, p).shares + shares, TallyOf(m', b, p).orders + orders)
        else TallyOf(m', b, p)
  }

  /**
   Order `o` leaves its level, and one of `shares` joins the level at `price` on the side of `o`. No level of the
   other side changes, and no other level of this side.
   */
  ghost predicate LevelsSwap(m: Orders, m': Orders, o: Order, shares: u32, price: u32) {
    forall b: bool, p: u32 {:trigger TallyOf(m', b, p)} ::
      if b != o.Buy() || (p != o.price && p != price) then TallyOf(m', b, p) == TallyOf(m, b, p)
      else
        && TallyOf(m', b, p).shares + (if p == o.price then o.Qty() else 0)
             == TallyOf(m, b, p).shares + (if p == price then shares else 0)
        && TallyOf(m', b, p).orders + (if p == o.price then 1 else 0)
             == TallyOf(m, b, p).orders + (if p == price then 1 else 0)
  }

  /** An add, by its result: refused for reference 0 and for a live one, and then nothing changes. */
  ghost predicate AddEffect(m: Orders, m': Orders, r: ApplyResult, ref: u64, buy: bool, shares: u32, price: u32) {
    if ref == 0 || ref in m then r == DuplicateRef && m' == m
    else r == Applied && m' - {ref} == m && Quantity(m', ref) == shares && LevelGains(m, m', buy, price, shares)
  }

  /**
   A reduction, by its result: it takes the request, or all there is if that is less, and it is called clamped exactly
   when it took less than the request. The order is gone exactly when nothing of it is left.
   */
  ghost predicate ReduceEffect(m: Orders, m': Orders, r: ApplyResult, ref: u64, shares: u32) {
    if ref !in m then r == UnknownRef && m' == m
    else
      var taken := Quantity(m, ref) - Quantity(m', ref);
      && 0 <= taken <= shares && (r == if taken < shares then ClampedReduce else Applied)
      && (ref in m' <==> shares < Quantity(m, ref)) && m' - {ref} == m - {ref}
      && LevelLoses(m, m', m[ref], taken, if ref in m' then 0 else 1)
  }

  ghost predicate RemoveEffect(m: Orders, m': Orders, r: ApplyResult, ref: u64) {
    if ref !in m then r == UnknownRef && m' == m
    else r == Applied && m' == m - {ref} && LevelLoses(m, m', m[ref], Quantity(m, ref), 1)
  }

  /** A replace, by its result; the new order rests on the side of the original. */
  ghost predicate ReplaceEffect(m: Orders, m': Orders, r: ApplyResult,
                                original: u64, ref: u64, shares: u32, price: u32) {
    if original !in m then r == UnknownRef && m' == m
    else if ref == 0 then r == DuplicateRef && m' == m - {original}
    else if ref != original && ref in m then r == DuplicateRef && m' == m
    else
      && r == Applied && m' - {ref} == m - {original} && Quantity(m', ref) == shares
      && LevelsSwap(m, m', m[original], shares, price)
  }

  lemma AddLaw(m: Orders, ref: u64, buy: bool, shares: u32, price: u32)
    requires shares < SIDE_BIT
    ensures AddEffect(m, Added(m, ref, buy, shares, price), AddResult(m, ref), ref, buy, shares, price)
  {
    if ref != 0 && ref !in m {
      var m' := Added(m, ref, buy, shares, price);
      assert m' - {ref} == m;
      forall b: bool, p: u32
        ensures TallyOf(m', b, p) ==
          if b == buy && p == price then Tally(TallyOf(m, b, p).shares + shares, TallyOf(m, b, p).orders + 1)
          else TallyOf(m, b, p)
      {
        TallyInsert(m, ref, Order(Packed(buy, shares), price), b, p);
      }
    }
  }

  lemma RemoveLaw(m: Orders, ref: u64)
    ensures RemoveEffect(m, Removed(m, ref), RemoveResult(m, ref), ref)
  {
    if ref in m {
      forall b: bool, p: u32
        ensures TallyOf(m, b, p) ==
          if b == m[ref].Buy() && p == m[ref].price
          then Tally(TallyOf(m - {ref}, b, p).shares + m[ref].Qty(), TallyOf(m - {ref}, b, p).orders + 1)
          else TallyOf(m - {ref}, b, p)
      {
        TallySplit(m, ref, b, p);
      }
    } else {
      assert m - {ref} == m;
    }
  }

  lemma ReduceLaw(m: Orders, ref: u64, shares: u32)
    ensures ReduceEffect(m, Reduced(m, ref, shares), ReduceResult(m, ref, shares), ref, shares)
  {
    var m' := Reduced(m, ref, shares);
    if ref in m {
      assert m' - {ref} == m - {ref};
      RemoveLaw(m, ref);
    }
    if ref in m && ref in m' {
      forall b: bool, p: u32
        ensures TallyOf(m, b, p) ==
          if b == m[ref].Buy() && p == m[ref].price
          then Tally(TallyOf(m', b, p).shares + (Quantity(m, ref) - Quantity(m', ref)), TallyOf(m', b, p).orders)
          else TallyOf(m', b, p)
      {
        TallySplit(m, ref, b, p);
        TallySplit(m', ref, b, p);
      }
    }
  }

  lemma ReplaceLaw(m: Orders, original: u64, ref: u64, shares: u32, price: u32)
    requires shares < SIDE_BIT && 0 !in m
    ensures ReplaceEffect(m, Replaced(m, original, ref, shares, price), ReplaceResult(m, original, ref),
                          original, ref, shares, price)
  {
    if original in m && ref != 0 && (ref == original || ref !in m) {
      var m' := Replaced(m, original, ref, shares, price);
      var o := Order(Packed(m[original].Buy(), shares), price);
      assert m' == (m - {original})[ref := o] && m' - {ref} == m - {original};
      forall b: bool, p: u32 ensures
        if b != m[original].Buy() || (p != m[original].price && p != price) then TallyOf(m', b, p) == TallyOf(m, b, p)
        else
          && TallyOf(m', b, p).shares + (if p == m[original].price then m[original].Qty() else 0)
               == TallyOf(m, b, p).shares + (if p == price then shares else 0)
          && TallyOf(m', b, p).orders + (if p == m[original].price then 1 else 0)
               == TallyOf(m, b, p).orders + (if p == price then 1 else 0)
      {
        TallySplit(m, original, b, p);
        TallyInsert(m - {original}, ref, o, b, p);
      }
    }
  }

  // ---- what the queries mean ----

  /** Remaining quantity of a live order, or 0. */
  function Quantity(m: Orders, ref: u64): u32 {
    if ref in m then m[ref].Qty() else 0
  }

  /** The best price of a side, with the true aggregate of the orders there; none if the side has no order. */
  ghost predicate IsBestOf(m: Orders, buy: bool, r: Option<Level>) {
    if r.None? then forall k | k in m :: m[k].Buy() != buy
    else
      && Tally(r.value.shares, r.value.orders) == TallyOf(m, buy, r.value.price)
      && r.value.orders != 0
      && forall k | k in m && m[k].Buy() == buy ::
           if buy then m[k].price <= r.value.price else r.value.price <= m[k].price
  }

  /** The level of a live order has shares. */
  ghost predicate InSolidLevel(m: Orders, r: u64)
    requires r in m
  {
    TallyOf(m, m[r].Buy(), m[r].price).shares > 0
  }

  /** No price at which all the live orders of a side have quantity zero. */
  ghost predicate NoHollowLevel(m: Orders) {
    forall r {:trigger InSolidLevel(m, r)} | r in m :: InSolidLevel(m, r)
  }

  lemma LevelHasOrder(m: Orders, buy: bool, p: u32)
    requires NoHollowLevel(m)
    ensures TallyOf(m, buy, p).orders != 0 ==> TallyOf(m, buy, p).shares != 0
  {
    var a := Resting(m, buy, p);
    if a != map[] {
      var r :| r in a;
      assert IsAt(m[r], buy, p) && InSolidLevel(m, r);
    }
  }

  ghost predicate AllPositive(m: Orders) {
    forall r {:trigger m[r]} | r in m :: m[r].Qty() > 0
  }

  /** Orders of positive quantity never make a hollow level. */
  lemma PositiveNotHollow(m: Orders)
    requires AllPositive(m)
    ensures NoHollowLevel(m)
  {
    forall r | r in m ensures InSolidLevel(m, r) {
      TallySplit(m, r, m[r].Buy(), m[r].price);
    }
  }

  /** An order without shares, alone at its price, is a hollow level. */
  lemma ZeroSharesHollow()
    ensures !NoHollowLevel(Added(map[], 1, true, 0, 5000))
  {
    var m := Added(map[], 1, true, 0, 5000);
    TallySplit(m, 1, true, 5000);
    TallyBound(m - {1}, true, 5000);
    assert m - {1} == map[] && Resting(m - {1}, true, 5000) == map[];
    assert TallyOf(m, true, 5000).shares == 0;
    assert !InSolidLevel(m, 1);
  }

  // ---- replace is all or nothing, but for reference 0 ----

  /**
   A replace that is not applied leaves the book alone, unless it names reference 0 for a live order: then the
   order and its shares are gone, and the new order is refused.
   */
  lemma ReplaceAllOrNothing(m: Orders, original: u64, ref: u64, shares: u32, price: u32)
    requires shares < SIDE_BIT && 0 !in m
    ensures ReplaceResult(m, original, ref) == Applied || Replaced(m, original, ref, shares, price) == m
      <==> !(original in m && ref == 0)
    ensures original in m && ref == 0 ==>
      && ReplaceResult(m, original, ref) == DuplicateRef
      && Replaced(m, original, ref, shares, price) == m - {original}
      && Total(m - {original}) == Total(m) - m[original].Qty()
  {
    if original in m && ref == 0 {
      TotalSplit(m, original);
      assert original !in Replaced(m, original, ref, shares, price);
    }
  }

  /** One such replace: the order is gone, the new one is refused, and 100 shares have left the book unnoticed. */
  lemma ZeroReferenceLosesOrder()
    ensures var m: Orders := map[1 := Order(100, 5000)];
      && ReplaceResult(m, 1, 0) == DuplicateRef
      && Replaced(m, 1, 0, 50, 6000) == map[]
      && Total(m) == 100
  {
    var m: Orders := map[1 := Order(100, 5000)];
    TotalSplit(m, 1);
    assert m - {1} == map[];
  }
}
