/** Each side of a book as the aggregate of the live orders, one order more or less at a time. */
module BookSides {
  import opened Words
  import opened FlatHashMap
  import opened Ladder
  import opened LadderOps
  import opened BookSpec

  /** Each level of a side is the aggregate of the live orders there, and nothing else is. */
  ghost predicate SideMatches(g: Grid, m: Orders, buy: bool)
    requires Shape(g)
  {
    forall p {:trigger At(g, p)} :: At(g, p) == TallyOf(m, buy, p)
  }

  // ---- one order more or less, seen from each side ----

  lemma SideGains(g: Grid, h: Grid, m: Orders, r: u64, o: Order)
    requires Shape(g) && Shape(h) && r !in m && SideMatches(g, m, o.Buy())
    requires Changed(g, h, o.price, Tally(At(g, o.price).shares + o.Qty(), At(g, o.price).orders + 1))
    ensures SideMatches(h, m[r := o], o.Buy())
  {
    forall p ensures At(h, p) == TallyOf(m[r := o], o.Buy(), p) {
      TallyInsert(m, r, o, o.Buy(), p);
      assert At(g, p) == TallyOf(m, o.Buy(), p) && At(g, o.price) == TallyOf(m, o.Buy(), o.price);
    }
  }

  lemma OtherSideKeeps(g: Grid, m: Orders, r: u64, o: Order, buy: bool)
    requires Shape(g) && r !in m && buy != o.Buy()
    ensures SideMatches(g, m, buy) <==> SideMatches(g, m[r := o], buy)
  {
    forall p ensures TallyOf(m[r := o], buy, p) == TallyOf(m, buy, p) {
      TallyInsert(m, r, o, buy, p);
    }
  }

  /** A live order is counted in its own level. */
  lemma OrderInLevel(g: Grid, m: Orders, r: u64)
    requires Shape(g) && r in m && SideMatches(g, m, m[r].Buy())
    ensures At(g, m[r].price).orders >= 1 && At(g, m[r].price).shares >= m[r].Qty()
  {
    TallySplit(m, r, m[r].Buy(), m[r].price);
    TallyBound(m - {r}, m[r].Buy(), m[r].price);
    assert At(g, m[r].price) == TallyOf(m, m[r].Buy(), m[r].price);
  }

  lemma SideLoses(g: Grid, h: Grid, m: Orders, r: u64)
    requires Shape(g) && Shape(h) && r in m && SideMatches(g, m, m[r].Buy())
    requires var o, t := m[r], At(g, m[r].price);
      Changed(g, h, o.price, if t.orders <= 1 then NOTHING else Tally(t.shares - o.Qty(), t.orders - 1))
    ensures SideMatches(h, m - {r}, m[r].Buy())
  {
    var o, rest := m[r], m - {r};
    forall p ensures At(h, p) == TallyOf(rest, o.Buy(), p) {
      TallySplit(m, r, o.Buy(), p);
      assert At(g, p) == TallyOf(m, o.Buy(), p) && At(g, o.price) == TallyOf(m, o.Buy(), o.price);
      TallyBound(rest, o.Buy(), p);
    }
  }

  /** Shrinking an order takes the difference off its level and leaves its order count. */
  lemma SideShrinks(g: Grid, h: Grid, m: Orders, r: u64, o: Order)
    requires Shape(g) && Shape(h) && r in m && SideMatches(g, m, o.Buy())
    requires o.Buy() == m[r].Buy() && o.price == m[r].price && o.Qty() <= m[r].Qty()
    requires var t := At(g, o.price); Changed(g, h, o.price, Tally(t.shares - (m[r].Qty() - o.Qty()), t.orders))
    ensures SideMatches(h, m[r := o], o.Buy())
  {
    var rest := m - {r};
    assert rest[r := o] == m[r := o];
    forall p ensures At(h, p) == TallyOf(m[r := o], o.Buy(), p) {
      TallySplit(m, r, o.Buy(), p);
      TallyInsert(rest, r, o, o.Buy(), p);
      assert At(g, p) == TallyOf(m, o.Buy(), p) && At(g, o.price) == TallyOf(m, o.Buy(), o.price);
    }
  }

  lemma OtherSideIgnoresRemove(g: Grid, m: Orders, r: u64, buy: bool)
    requires Shape(g) && r in m && buy != m[r].Buy() && SideMatches(g, m, buy)
    ensures SideMatches(g, m - {r}, buy)
  {
    forall p ensures At(g, p) == TallyOf(m - {r}, buy, p) {
      TallySplit(m, r, buy, p);
      assert At(g, p) == TallyOf(m, buy, p);
    }
  }

  lemma OtherSideIgnoresShrink(g: Grid, m: Orders, r: u64, o: Order, buy: bool)
    requires Shape(g) && r in m && buy != m[r].Buy() && o.Buy() == m[r].Buy() && SideMatches(g, m, buy)
    ensures SideMatches(g, m[r := o], buy)
  {
    assert (m - {r})[r := o] == m[r := o];
    forall p ensures At(g, p) == TallyOf(m[r := o], buy, p) {
      TallySplit(m, r, buy, p);
      TallyInsert(m - {r}, r, o, buy, p);
      assert At(g, p) == TallyOf(m, buy, p);
    }
  }

  /** A reduction, as the order's own side sees it. */
  lemma SideReduced(g: Grid, h: Grid, m: Orders, r: u64, asked: u32)
    requires Shape(g) && Shape(h) && r in m && SideMatches(g, m, m[r].Buy())
    requires var o, cut, t := m[r], Cut(m, r, asked), At(g, m[r].price);
      Changed(g, h, o.price,
              if cut < o.Qty() then (if t.orders == 0 then NOTHING else Tally(t.shares - cut, t.orders))
              else if t.orders <= 1 then NOTHING else Tally(t.shares - cut, t.orders - 1))
    ensures SideMatches(h, Reduced(m, r, asked), m[r].Buy())
  {
    OrderInLevel(g, m, r);
    var o, cut := m[r], Cut(m, r, asked);
    if cut < o.Qty() {
      SideShrinks(g, h, m, r, Order(Packed(o.Buy(), o.Qty() - cut), o.price));
    } else {
      SideLoses(g, h, m, r);
    }
  }

  lemma OtherSideIgnoresReduce(g: Grid, m: Orders, r: u64, asked: u32, buy: bool)
    requires Shape(g) && r in m && buy != m[r].Buy() && SideMatches(g, m, buy)
    ensures SideMatches(g, Reduced(m, r, asked), buy)
  {
    var o, cut := m[r], Cut(m, r, asked);
    if cut < o.Qty() {
      var left := Order(Packed(o.Buy(), o.Qty() - cut), o.price);
      OtherSideIgnoresShrink(g, m, r, left, buy);
      assert Reduced(m, r, asked) == m[r := left];
    } else {
      OtherSideIgnoresRemove(g, m, r, buy);
      assert Reduced(m, r, asked) == m - {r};
    }
  }

  /** The best level of a matching side is the best price among the live orders of that side. */
  lemma BestOfOrders(g: Grid, m: Orders, buy: bool, p: u32)
    requires Shape(g) && (g.side == Buy <==> buy) && SideMatches(g, m, buy) && Best(g, p)
    ensures forall r | r in m && m[r].Buy() == buy :: if buy then m[r].price <= p else p <= m[r].price
  {
    forall r | r in m && m[r].Buy() == buy ensures if buy then m[r].price <= p else p <= m[r].price {
      OrderInLevel(g, m, r);
    }
  }

  lemma NoOrders(g: Grid, m: Orders, buy: bool)
    requires Shape(g) && SideMatches(g, m, buy) && forall p :: At(g, p).orders == 0
    ensures forall r | r in m :: m[r].Buy() != buy
  {
    forall r | r in m ensures m[r].Buy() != buy {
      if m[r].Buy() == buy {
        OrderInLevel(g, m, r);
      }
    }
  }

  lemma SameTableMatches(g: Grid, h: Grid, m: Orders, buy: bool)
    requires Shape(g) && Shape(h) && SameTable(g, h) && SideMatches(g, m, buy)
    ensures SideMatches(h, m, buy)
  {
    forall p ensures At(h, p) == TallyOf(m, buy, p) {
      assert At(h, p) == At(g, p);
    }
  }

  /** The stored levels are never hollow exactly when the orders make no hollow level. */
  lemma HollowLevels(m: Orders, b: Grid, a: Grid)
    requires Shape(b) && Shape(a) && SideMatches(b, m, true) && SideMatches(a, m, false)
    ensures NoHollowLevel(m) <==> NoEmptyLevel(b) && NoEmptyLevel(a)
  {
    forall p
      ensures At(b, p) == TallyOf(m, true, p) && At(a, p) == TallyOf(m, false, p)
    {
    }
    if NoEmptyLevel(b) && NoEmptyLevel(a) {
      forall r | r in m ensures InSolidLevel(m, r) {
        OrderInLevel(if m[r].Buy() then b else a, m, r);
      }
    }
    if NoHollowLevel(m) {
      forall p ensures At(b, p).orders != 0 ==> At(b, p).shares != 0 {
        LevelHasOrder(m, true, p);
      }
      forall p ensures At(a, p).orders != 0 ==> At(a, p).shares != 0 {
        LevelHasOrder(m, false, p);
      }
    }
  }
}
