/** The full invariant check: both sides rebuilt from the index alone and compared. */
module BookCheck {
  import opened Words
  import opened FlatHashMap
  import opened Ladder
  import opened LadderOps
  import opened LadderMerge
  import opened PriceWindow
  import opened BookSpec
  import opened BookSides

  /** `c` is the sorted map of levels that the orders `m` make on one side. */
  ghost predicate Rebuilt(c: map<u32, Level>, m: Orders, buy: bool) {
    forall p {:trigger TallyOf(m, buy, p)} :: IsRebuilt(c, p, TallyOf(m, buy, p))
  }

  ghost predicate IsRebuilt(c: map<u32, Level>, p: u32, t: Tally) {
    if p in c then c[p].price == p && c[p].shares == t.shares && c[p].orders == t.orders != 0 else t == NOTHING
  }

  /** One more order overflows no field of its level. */
  predicate FitsIn(c: map<u32, Level>, o: Order) {
    o.price in c ==> c[o.price].shares + o.Qty() < TWO_64 && c[o.price].orders + 1 < TWO_32
  }

  /** One more order folded into the rebuilt levels. */
  function Folded(c: map<u32, Level>, o: Order): map<u32, Level>
    requires FitsIn(c, o)
  {
    var l := if o.price in c then c[o.price] else NO_LEVEL;
    c[o.price := Level(o.price, l.shares + o.Qty(), l.orders + 1)]
  }

  lemma FoldFits(c: map<u32, Level>, m: Orders, o: Order)
    requires Rebuilt(c, m, o.Buy()) && |m| + 1 < TWO_32
    ensures FitsIn(c, o)
  {
    TallyBound(m, o.Buy(), o.price);
    assert IsRebuilt(c, o.price, TallyOf(m, o.Buy(), o.price));
  }

  lemma FoldStep(c: map<u32, Level>, m: Orders, r: u64, o: Order)
    requires Rebuilt(c, m, o.Buy()) && |m| + 1 < TWO_32 && r !in m
    requires FitsIn(c, o)
    ensures Rebuilt(Folded(c, o), m[r := o], o.Buy())
  {
    var c', m' := Folded(c, o), m[r := o];
    forall p ensures IsRebuilt(c', p, TallyOf(m', o.Buy(), p)) {
      TallyInsert(m, r, o, o.Buy(), p);
      assert IsRebuilt(c, p, TallyOf(m, o.Buy(), p));
    }
  }

  lemma FoldOther(c: map<u32, Level>, m: Orders, r: u64, o: Order, buy: bool)
    requires Rebuilt(c, m, buy) && r !in m && buy != o.Buy()
    ensures Rebuilt(c, m[r := o], buy)
  {
    var m' := m[r := o];
    forall p ensures IsRebuilt(c, p, TallyOf(m', buy, p)) {
      TallyInsert(m, r, o, buy, p);
      assert IsRebuilt(c, p, TallyOf(m, buy, p));
    }
  }

  /** The next slot adds an order that is not there yet, and the book stays within its bound. */
  lemma NextEntry(hash: Hash, slots: seq<Slot>, k: nat)
    requires FlatHashMap.Sound(hash, slots, |slots|) && k < |slots| && Live(slots, |slots|) < TWO_32
    ensures slots[k].ref != 0 ==>
      && slots[k].ref !in Entries(slots, k)
      && Entries(slots, k + 1) == Entries(slots, k)[slots[k].ref := slots[k].order]
      && |Entries(slots, k)| + 1 < TWO_32
    ensures slots[k].ref == 0 ==> Entries(slots, k + 1) == Entries(slots, k)
  {
    EntryCount(hash, slots, k);
    EntryCount(hash, slots, k + 1);
    LiveGrows(slots, k + 1, |slots|);
    if slots[k].ref != 0 && slots[k].ref in Entries(slots, k) {
      var i := EntryHasSlot(slots, k, slots[k].ref);
      SlotOfKey(hash, slots, k, i);
    }
  }

  /** Both sides rebuilt from the first `k` slots. */
  ghost predicate RebuiltUpto(bids: map<u32, Level>, asks: map<u32, Level>, slots: seq<Slot>, k: nat)
    requires k <= |slots|
  {
    Rebuilt(bids, Entries(slots, k), true) && Rebuilt(asks, Entries(slots, k), false)
  }

  /** One round: an order is folded into the levels of its side. */
  lemma RebuildRound(hash: Hash, slots: seq<Slot>, k: nat, bids: map<u32, Level>, asks: map<u32, Level>)
    requires FlatHashMap.Sound(hash, slots, |slots|) && k < |slots| && Live(slots, |slots|) < TWO_32
    requires RebuiltUpto(bids, asks, slots, k)
    ensures var o := slots[k].order;
      if slots[k].ref == 0 then RebuiltUpto(bids, asks, slots, k + 1)
      else if o.Buy() then FitsIn(bids, o) && RebuiltUpto(Folded(bids, o), asks, slots, k + 1)
      else FitsIn(asks, o) && RebuiltUpto(bids, Folded(asks, o), slots, k + 1)
  {
    NextEntry(hash, slots, k);
    var r, o, m := slots[k].ref, slots[k].order, Entries(slots, k);
    if r != 0 {
      if o.Buy() {
        FoldFits(bids, m, o);
        FoldStep(bids, m, r, o);
        FoldOther(asks, m, r, o, false);
      } else {
        FoldFits(asks, m, o);
        FoldStep(asks, m, r, o);
        FoldOther(bids, m, r, o, true);
      }
    }
  }

  /** Rebuilds both sides from the order index. */
  method Rebuild(index: OrderIndex) returns (bids: map<u32, Level>, asks: map<u32, Level>)
    requires index.Valid() && index.size < TWO_32
    ensures Rebuilt(bids, index.Contents(), true) && Rebuilt(asks, index.Contents(), false)
  {
    bids, asks := map[], map[];
    var slots := index.slots;
    for k := 0 to |slots|
      invariant RebuiltUpto(bids, asks, slots, k)
    {
      RebuildRound(index.hash, slots, k, bids, asks);
      if slots[k].ref == 0 {
        continue;
      }
      var o := slots[k].order;
      if o.Buy() {
        bids := Folded(bids, o);
      } else {
        asks := Folded(asks, o);
      }
    }
  }

  /** A listing without repeats has as many levels as the map has keys. */
  lemma {:induction false} SameSize(out: seq<Level>, keys: set<u32>)
    requires forall i, j | 0 <= i < j < |out| :: out[i].price != out[j].price
    requires forall i | 0 <= i < |out| :: out[i].price in keys
    requires forall p | p in keys :: exists i :: 0 <= i < |out| && out[i].price == p
    ensures |out| == |keys|
  {
    if out == [] {
      assert keys == {};
    } else {
      var n := |out| - 1;
      var rest := keys - {out[n].price};
      forall p | p in rest ensures exists i :: 0 <= i < |out[..n]| && out[..n][i].price == p {
        var i :| 0 <= i < |out| && out[i].price == p;
        assert out[..n][i].price == p;
      }
      SameSize(out[..n], rest);
      assert keys == rest + {out[n].price};
    }
  }

  /** The stored side against the rebuilt one: it agrees exactly when every level is what the orders make it. */
  method SideAgrees(stored: PriceLevels, computed: map<u32, Level>, ghost m: Orders, ghost buy: bool) returns (ok: bool)
    requires stored.Valid() && Rebuilt(computed, m, buy)
    ensures ok <==> NoEmptyLevel(stored.State()) && SideMatches(stored.State(), m, buy)
  {
    ghost var g := stored.State();
    SoundPasses(g);
    ok := stored.CheckInvariants();
    if !ok {
      return;
    }
    var levels := stored.Levels();
    ListedNotEmpty(g, levels);
    ok := CompareLevels(levels, computed);
    AgreeExactly(g, levels, computed, m, buy);
  }

  method CompareLevels(levels: seq<Level>, computed: map<u32, Level>) returns (ok: bool)
    requires forall k | 0 <= k < |levels| :: levels[k].shares != 0 && levels[k].orders != 0
    ensures ok <==> |levels| == |computed| && AllAgree(levels, |levels|, computed)
  {
    if |levels| != |computed| {
      return false;
    }
    for k := 0 to |levels|
      invariant AllAgree(levels, k, computed)
    {
      var l := levels[k];
      if l.shares == 0 || l.orders == 0 {
        return false;
      }
      if l.price !in computed {
        assert !Agrees(levels[k], computed);
        return false;
      }
      if l.shares != computed[l.price].shares || l.orders != computed[l.price].orders {
        assert !Agrees(levels[k], computed);
        return false;
      }
      assert Agrees(levels[k], computed);
    }
    return true;
  }

  lemma SoundPasses(g: Grid)
    requires Ladder.Sound(g)
    ensures Passes(g) <==> NoEmptyLevel(g)
  {
    PassesExactly(g);
    SoundNothingStale(g);
  }

  lemma ListedNotEmpty(g: Grid, levels: seq<Level>)
    requires Shape(g) && NoEmptyLevel(g) && ListsAll(g, levels)
    ensures forall k | 0 <= k < |levels| :: levels[k].shares != 0 && levels[k].orders != 0
  {
    forall k | 0 <= k < |levels| ensures levels[k].shares != 0 && levels[k].orders != 0 {
      assert At(g, levels[k].price) == Tally(levels[k].shares, levels[k].orders);
    }
  }

  predicate Agrees(l: Level, c: map<u32, Level>) {
    l.price in c && l.shares == c[l.price].shares && l.orders == c[l.price].orders
  }

  ghost predicate AllAgree(levels: seq<Level>, k: nat, c: map<u32, Level>)
    requires k <= |levels|
  {
    forall j {:trigger Agrees(levels[j], c)} | 0 <= j < k :: Agrees(levels[j], c)
  }

  /** As many levels as were rebuilt, and each like its rebuilt one: the side is what the orders make it. */
  lemma AgreeExactly(g: Grid, levels: seq<Level>, c: map<u32, Level>, m: Orders, buy: bool)
    requires Ladder.Sound(g) && Rebuilt(c, m, buy) && ListsAll(g, levels)
    ensures SideMatches(g, m, buy) <==> |levels| == |c| && AllAgree(levels, |levels|, c)
  {
    if SideMatches(g, m, buy) {
      AgreeAll(g, levels, c, m, buy);
    }
    if |levels| == |c| && AllAgree(levels, |levels|, c) {
      EmptyIsNothing(g);
      forall p ensures At(g, p) == TallyOf(m, buy, p) {
        assert IsRebuilt(c, p, TallyOf(m, buy, p));
        LevelAgrees(g, levels, c, p);
      }
    }
  }

  lemma LevelAgrees(g: Grid, levels: seq<Level>, c: map<u32, Level>, p: u32)
    requires Shape(g) && ListsAll(g, levels) && |levels| == |c| && AllAgree(levels, |levels|, c)
    ensures if p in c then At(g, p) == Tally(c[p].shares, c[p].orders) else At(g, p).orders == 0
  {
    AllListed(levels, c);
    if p in c {
      var j :| 0 <= j < |levels| && levels[j].price == p;
      assert Agrees(levels[j], c);
    } else {
      forall j | 0 <= j < |levels| ensures levels[j].price != p {
        assert Agrees(levels[j], c);
      }
    }
  }

  /** As many levels as keys, no price twice, each a key: every key is listed. */
  lemma AllListed(levels: seq<Level>, c: map<u32, Level>)
    requires |levels| == |c| && AllAgree(levels, |levels|, c)
    requires forall i, j | 0 <= i < j < |levels| :: levels[i].price != levels[j].price
    ensures forall p | p in c :: exists j :: 0 <= j < |levels| && levels[j].price == p
  {
    var prices := set j | 0 <= j < |levels| :: levels[j].price;
    forall p | p in prices ensures p in c.Keys {
      var j :| 0 <= j < |levels| && levels[j].price == p;
      assert Agrees(levels[j], c);
    }
    SameSize(levels, prices);
    SubsetEqual(prices, c.Keys);
  }

  lemma SubsetEqual(a: set<u32>, b: set<u32>)
    requires a <= b && |a| == |b|
    ensures a == b
  {
    assert b == a + (b - a);
  }

  lemma AgreeAll(g: Grid, levels: seq<Level>, c: map<u32, Level>, m: Orders, buy: bool)
    requires Shape(g) && SideMatches(g, m, buy) && Rebuilt(c, m, buy) && ListsAll(g, levels)
    ensures |levels| == |c|
    ensures AllAgree(levels, |levels|, c)
  {
    forall p ensures IsRebuilt(c, p, At(g, p)) {
      assert IsRebuilt(c, p, TallyOf(m, buy, p));
    }
    forall p | p in c ensures exists i :: 0 <= i < |levels| && levels[i].price == p {
      assert IsRebuilt(c, p, At(g, p));
    }
    forall k | 0 <= k < |levels| ensures Agrees(levels[k], c) {
      assert IsRebuilt(c, levels[k].price, At(g, levels[k].price));
    }
    SameSize(levels, c.Keys);
    assert |c| == |c.Keys|;
  }
}
