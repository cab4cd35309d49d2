/** The effect of each operation of one side on its table, stated on snapshots. */
module LadderOps {
  import opened Words
  import opened Ladder
  import opened SortedMap
  import opened LadderScan

  /** One price changes, and no other. */
  ghost predicate Changed(g: Grid, h: Grid, p: u32, t: Tally)
    requires Shape(g) && Shape(h)
  {
    forall q {:trigger At(h, q)} :: At(h, q) == if q == p then t else At(g, q)
  }

  /** No level whose orders hold no shares. */
  ghost predicate NoEmptyLevel(g: Grid)
    requires Shape(g)
  {
    forall p {:trigger At(g, p)} :: At(g, p).orders != 0 ==> At(g, p).shares != 0
  }

  /** No orders at a price means no shares there. */
  lemma EmptyIsNothing(g: Grid)
    requires Sound(g)
    ensures forall p :: At(g, p).orders == 0 ==> At(g, p) == NOTHING
  {
    forall p | At(g, p).orders == 0 ensures At(g, p) == NOTHING {
      var c := CellOf(g.base, g.span, p);
      assert c >= 0 && g.cells != [] ==> CellOk(g, c);
      assert p in g.far ==> FarOk(g, p);
    }
  }

  ghost predicate EmptyTable(g: Grid)
    requires Shape(g)
  {
    forall q {:trigger At(g, q)} :: At(g, q) == NOTHING
  }

  /** The representation may change, the table does not. */
  ghost predicate SameTable(g: Grid, h: Grid)
    requires Shape(g) && Shape(h)
  {
    forall q {:trigger At(h, q)} :: At(h, q) == At(g, q)
  }

  /** Setting the bit of cell `c`, whose price is `price`, moves the cached best as `add` and `place` do. */
  lemma BestAfterSet(g: Grid, c: nat, price: u32)
    requires Sound(g) && c < |g.cells| && CellOf(g.base, g.span, price) == c
    requires g.cells[c].orders == 0
    ensures g.best >= 0 ==> g.best < |g.cells|
    ensures Leads(g.side, SetBit(g.bits, c),
                  if g.best < 0 || Better(g.side, price, g.cells[g.best].price) then c else g.best)
  {
    if g.best >= 0 {
      assert CellOk(g, g.best);
      CellOrder(g.side, g.base, g.span, price, g.cells[g.best].price);
    }
    forall j: nat | j < |g.cells| ensures BitAt(SetBit(g.bits, c), j) == (j == c || BitAt(g.bits, j)) {
      SetBitAt(g.bits, c, j);
    }
  }

  /** The cell branch of `add`. */
  function CellAdded(g: Grid, c: nat, price: u32, shares: u32): Grid
    requires Shape(g) && c < |g.cells| && -1 <= g.best < |g.cells|
    requires g.cells[c].shares + shares < TWO_64 && g.cells[c].orders + 1 < TWO_32
  {
    var l := g.cells[c];
    if l.orders == 0 then
      g.(cells := g.cells[c := Level(price, l.shares + shares, 1)],
         bits := SetBit(g.bits, c),
         count := g.count + 1,
         best := if g.best < 0 || Better(g.side, price, g.cells[c := l.(price := price)][g.best].price) then c
                 else g.best)
    else g.(cells := g.cells[c := Level(l.price, l.shares + shares, l.orders + 1)])
  }

  lemma CellAdd(g: Grid, c: nat, price: u32, shares: u32)
    requires Sound(g) && c < |g.cells| && CellOf(g.base, g.span, price) == c
    requires At(g, price).shares + shares < TWO_64 && At(g, price).orders + 1 < TWO_32
    ensures Sound(CellAdded(g, c, price, shares))
    ensures Changed(g, CellAdded(g, c, price, shares), price,
                    Tally(At(g, price).shares + shares, At(g, price).orders + 1))
  {
    var l, h := g.cells[c], CellAdded(g, c, price, shares);
    assert CellOk(g, c);
    forall q ensures CellOf(g.base, g.span, q) == c <==> q == price {
      if CellOf(g.base, g.span, q) == c {
        CellOrder(g.side, g.base, g.span, price, q);
      }
    }
    if l.orders == 0 {
      BestAfterSet(g, c, price);
      assert g.best >= 0 ==> CellOk(g, g.best);
      forall j: nat | j < |g.cells| ensures BitAt(h.bits, j) == if j == c then true else BitAt(g.bits, j) {
        SetBitAt(g.bits, c, j);
      }
    } else {
      CellOrder(g.side, g.base, g.span, price, l.price);
    }
    CellWrite(g, c, h.cells[c], h.bits, h.count, h.best);
    assert h == g.(cells := g.cells[c := h.cells[c]], bits := h.bits, count := h.count, best := h.best);
  }

  /** Taking shares, and perhaps one order, off a cell that keeps at least one order. */
  lemma CellTake(g: Grid, c: nat, price: u32, shares: u64, orders: u32)
    requires Sound(g) && c < |g.cells| && CellOf(g.base, g.span, price) == c
    requires shares <= g.cells[c].shares && orders < g.cells[c].orders
    ensures var l := g.cells[c];
      var h := g.(cells := g.cells[c := Level(l.price, l.shares - shares, l.orders - orders)]);
      Sound(h) && Changed(g, h, price, Tally(At(g, price).shares - shares, At(g, price).orders - orders))
  {
    var l := g.cells[c];
    var h := g.(cells := g.cells[c := Level(l.price, l.shares - shares, l.orders - orders)]);
    assert CellOk(g, c);
    OnlyPrice(g, c, price);
    CellWrite(g, c, h.cells[c], g.bits, g.count, g.best);
    assert h == g.(cells := g.cells[c := h.cells[c]], bits := g.bits, count := g.count, best := g.best);
  }

  lemma OnlyPrice(g: Grid, c: nat, price: u32)
    requires CellOf(g.base, g.span, price) == c
    ensures forall q {:trigger CellOf(g.base, g.span, q)} :: CellOf(g.base, g.span, q) == c <==> q == price
  {
    forall q ensures CellOf(g.base, g.span, q) == c <==> q == price {
      if CellOf(g.base, g.span, q) == c {
        CellOrder(g.side, g.base, g.span, price, q);
      }
    }
  }

  /** The last order of a cell goes: the cell is blanked and its bit cleared; `best` must lead what is left. */
  lemma CellVacate(g: Grid, c: nat, price: u32, best: int)
    requires Sound(g) && c < |g.cells| && CellOf(g.base, g.span, price) == c
    requires g.cells[c].orders != 0
    requires if g.best == c then Leads(g.side, ClearBit(g.bits, c), best) else best == g.best
    ensures g.count > 0
    ensures var h := g.(cells := g.cells[c := Level(g.cells[c].price, 0, 0)],
                        bits := ClearBit(g.bits, c), count := g.count - 1, best := best);
      Sound(h) && Changed(g, h, price, NOTHING)
  {
    var l := Level(g.cells[c].price, 0, 0);
    var bits := ClearBit(g.bits, c);
    assert CellOk(g, c);
    OnlyPrice(g, c, price);
    UpUpdate(g.cells, c, l, |g.cells|);
    forall j: nat | j < |g.cells| ensures BitAt(bits, j) == if j == c then false else BitAt(g.bits, j) {
      ClearBitAt(g.bits, c, j);
    }
    CellWrite(g, c, l, bits, g.count - 1, best);
  }

  /** `place` of a level that fits: its cell is free. */
  lemma CellPlace(g: Grid, c: nat, l: Level)
    requires Sound(g) && c < |g.cells| && CellOf(g.base, g.span, l.price) == c
    requires l.orders != 0 && At(g, l.price).orders == 0
    ensures g.best >= 0 ==> g.best < |g.cells|
    ensures var h := g.(cells := g.cells[c := l], bits := SetBit(g.bits, c), count := g.count + 1,
                        best := if g.best < 0 || Better(g.side, l.price, g.cells[c := l][g.best].price) then c
                                else g.best);
      Sound(h) && Changed(g, h, l.price, Tally(l.shares, l.orders))
  {
    assert CellOk(g, c);
    assert g.best >= 0 ==> CellOk(g, g.best);
    OnlyPrice(g, c, l.price);
    BestAfterSet(g, c, l.price);
    var bits := SetBit(g.bits, c);
    forall j: nat | j < |g.cells| ensures BitAt(bits, j) == if j == c then true else BitAt(g.bits, j) {
      SetBitAt(g.bits, c, j);
    }
    var best := if g.best < 0 || Better(g.side, l.price, g.cells[g.best].price) then c else g.best;
    CellWrite(g, c, l, bits, g.count + 1, best);
  }

  // ---- the window being moved ----

  /** Cells below `k` have been gathered and cleared; the rest are as in `g`. */
  ghost predicate Swept(g: Grid, cells: seq<Level>, k: nat) {
    && |cells| == |g.cells|
    && (forall i | 0 <= i < |cells| && i < k :: cells[i].orders == 0 && cells[i].shares == 0)
    && (forall i | k <= i < |cells| :: cells[i] == g.cells[i])
  }

  /** Moving past empty cells gathers nothing. */
  lemma SweptGap(g: Grid, cells: seq<Level>, a: nat, b: nat)
    requires Sound(g) && Swept(g, cells, a) && a <= b <= |g.cells|
    requires Up(g.cells, a) == Up(g.cells, b)
    ensures Swept(g, cells, b)
  {
    forall i | a <= i < b ensures cells[i].orders == 0 && cells[i].shares == 0 {
      UpSteady(g.cells, a, i, b);
      assert CellOk(g, i);
    }
  }

  lemma {:induction false} UpMonotone(cells: seq<Level>, a: nat, b: nat)
    requires a <= b <= |cells|
    ensures |Up(cells, a)| <= |Up(cells, b)|
  {
    if a < b {
      UpMonotone(cells, a, b - 1);
    }
  }

  lemma UpSteady(cells: seq<Level>, a: nat, i: nat, b: nat)
    requires a <= i < b <= |cells| && Up(cells, a) == Up(cells, b)
    ensures cells[i].orders == 0
  {
    UpMonotone(cells, a, i);
    UpMonotone(cells, i + 1, b);
  }

  /** Taking cell `c`, with only empty cells passed since `a`, sweeps past it. */
  lemma SweptNext(g: Grid, cells: seq<Level>, a: nat, c: nat)
    requires Sound(g) && Swept(g, cells, a) && a <= c < |g.cells|
    requires Up(g.cells, a) == Up(g.cells, c)
    ensures cells[c] == g.cells[c] && Swept(g, cells[c := NO_LEVEL], c + 1)
  {
    SweptGap(g, cells, a, c);
  }

  /** The cell of the first set bit of word `w` from `lo` up joins the list and is cleared. */
  lemma GatherCell(g: Grid, cells: seq<Level>, all: seq<Level>, w: nat, lo: nat, b: nat)
    requires Sound(g) && w < |g.bits| && lo <= b < 64
    requires Bit(g.bits[w], b) && forall k: nat | lo <= k < b :: !Bit(g.bits[w], k)
    requires Swept(g, cells, 64 * w + lo) && all == Up(g.cells, 64 * w + lo)
    ensures all + [cells[64 * w + b]] == Up(g.cells, 64 * w + b + 1)
    ensures Swept(g, cells[64 * w + b := NO_LEVEL], 64 * w + b + 1)
  {
    UpFound(g, w, lo, b);
    SweptNext(g, cells, 64 * w + lo, 64 * w + b);
  }

  /** One step of the gather: the lowest remaining cell of word `w`. */
  lemma GatherStep(g: Grid, cells: seq<Level>, all: seq<Level>, w: nat, word: u64, lo: nat) returns (next: nat)
    requires Sound(g) && w < |g.bits| && lo <= 64 && word != 0
    requires From(word, g.bits[w], lo) && Swept(g, cells, 64 * w + lo) && all == Up(g.cells, 64 * w + lo)
    ensures var b := CountrZero(word, 0);
      && lo <= b < 64 && next == b + 1
      && all + [cells[64 * w + b]] == Up(g.cells, 64 * w + next)
      && Swept(g, cells[64 * w + b := NO_LEVEL], 64 * w + next)
      && And(word, word - 1) < word
      && From(And(word, word - 1), g.bits[w], next)
  {
    LowestBit(word, g.bits[w], lo);
    GatherCell(g, cells, all, w, lo, CountrZero(word, 0));
    next := CountrZero(word, 0) + 1;
  }

  lemma GatherDone(g: Grid, cells: seq<Level>, w: nat, lo: nat)
    requires Sound(g) && w < |g.bits| && lo <= 64
    requires From(0, g.bits[w], lo) && Swept(g, cells, 64 * w + lo)
    ensures Up(g.cells, 64 * w + lo) == Up(g.cells, 64 * w + 64)
    ensures Swept(g, cells, 64 * w + 64)
  {
    UpDone(g, w, lo);
    SweptGap(g, cells, 64 * w + lo, 64 * w + 64);
  }

  /** A side with cleared cells, a zero bitmap and no map is empty, wherever its window is. */
  lemma EmptySide(h: Grid)
    requires Shape(h) && h.base != NO_BASE && h.count == 0 && h.best == -1 && h.far == map[]
    requires forall i | 0 <= i < |h.cells| :: h.cells[i].orders == 0 && h.cells[i].shares == 0
    requires forall w | 0 <= w < |h.bits| :: h.bits[w] == 0
    ensures Sound(h) && forall p :: At(h, p) == NOTHING
  {
    forall i: nat | i < |h.cells| ensures CellOk(h, i) && !BitAt(h.bits, i) {
      ZeroWordAt(h.bits, i);
    }
    UpEmpty(h.cells, |h.cells|);
  }

  /** Placing one more of a list of distinct levels. */
  lemma PlaceStep(g: Grid, h: Grid, all: seq<Level>, k: nat)
    requires Shape(g) && Shape(h) && Distinct(all) && k < |all|
    requires forall p :: At(g, p) == Listed(all, k, p)
    requires Changed(g, h, all[k].price, Tally(all[k].shares, all[k].orders))
    ensures forall p :: At(h, p) == Listed(all, k + 1, p)
  {
  }

  lemma NextUnplaced(g: Grid, all: seq<Level>, k: nat)
    requires Shape(g) && Distinct(all) && k < |all|
    requires forall p :: At(g, p) == Listed(all, k, p)
    ensures At(g, all[k].price) == NOTHING
  {
    NotListed(all, k, all[k].price);
  }

  /** A side on which every gathered level has been placed has the table it had before. */
  lemma PlacedAll(g: Grid, h: Grid)
    requires Sound(g) && Shape(h)
    requires forall p :: At(h, p) == Listed(AllLevels(g), |AllLevels(g)|, p)
    ensures SameTable(g, h)
  {
    forall p ensures At(h, p) == At(g, p) {
      GatheredListed(g, p);
    }
  }

  // ---- where the best level is ----

  ghost predicate Best(g: Grid, p: u32)
    requires Shape(g)
  {
    && At(g, p).orders != 0
    && forall q {:trigger At(g, q)} :: At(g, q).orders != 0 ==> q == p || Better(g.side, p, q)
  }

  /** The array holds the best level and every level of the map is strictly worse. */
  ghost predicate BestInArray(g: Grid) {
    && (forall p | p in g.far :: 0 <= g.best < |g.cells| && Better(g.side, g.cells[g.best].price, p))
  }

  ghost predicate WholeCents(g: Grid)
    requires Shape(g)
  {
    forall p: u32 {:trigger At(g, p)} :: At(g, p).orders != 0 ==> p % TICK == 0
  }

  /** The cached best is the best of the array. */
  lemma BestOfCells(g: Grid, q: u32)
    requires Sound(g) && CellOf(g.base, g.span, q) >= 0 && At(g, q).orders != 0
    ensures 0 <= g.best < |g.cells|
    ensures q == g.cells[g.best].price || Better(g.side, g.cells[g.best].price, q)
  {
    var c := CellOf(g.base, g.span, q);
    assert CellOk(g, c);
    assert BitAt(g.bits, c);
    assert CellOk(g, g.best);
    CellOrder(g.side, g.base, g.span, q, g.cells[g.best].price);
  }

  lemma BestCell(g: Grid)
    requires Sound(g) && g.best >= 0
    ensures g.best < |g.cells|
    ensures var p := g.cells[g.best].price; CellOf(g.base, g.span, p) == g.best && At(g, p).orders != 0
  {
    assert CellOk(g, g.best);
  }

  /** The window holds the best exactly when the best price is a whole cent inside it. */
  lemma BestInArrayExactly(g: Grid)
    requires Sound(g)
    ensures BestInArray(g) <==> forall p | Best(g, p) :: CellOf(g.base, g.span, p) >= 0
  {
    if BestInArray(g) {
      if g.best >= 0 {
        BestCell(g);
      }
      forall p | Best(g, p) ensures p !in g.far {
        assert g.best >= 0 ==> At(g, g.cells[g.best].price).orders != 0;
      }
    } else {
      var f :| f in g.far && !(0 <= g.best < |g.cells| && Better(g.side, g.cells[g.best].price, f));
      var p := BestOfFar(g, f);
      assert FarOk(g, p);
      assert Best(g, p);
    }
  }

  /** The best price of the map. */
  function FarBestPrice(side: Side, far: map<u32, Level>): (p: u32)
    requires far != map[]
    ensures p in far && forall f | f in far :: f == p || Better(side, p, f)
  {
    var keys := SortedKeys(far.Keys);
    assert MinKey(far.Keys) in keys;
    var p := if side == Buy then keys[|keys| - 1] else keys[0];
    assert p in keys;
    assert forall f | f in far :: f in keys;
    p
  }

  /** With a level of the map not beaten by the array, the best level of all is in the map. */
  lemma BestOfFar(g: Grid, f: u32) returns (p: u32)
    requires Sound(g) && f in g.far
    requires !(0 <= g.best < |g.cells| && Better(g.side, g.cells[g.best].price, f))
    ensures p == FarBestPrice(g.side, g.far) && Best(g, p)
  {
    p := FarBestPrice(g.side, g.far);
    assert FarOk(g, p) && FarOk(g, f);
    forall q | At(g, q).orders != 0 ensures q == p || Better(g.side, p, q) {
      if CellOf(g.base, g.span, q) >= 0 {
        BestOfCells(g, q);
        BestCell(g);
      }
    }
  }

  /** An add at `price` moves the window: a whole cent outside it that beats every cell. */
  predicate Moves(g: Grid, price: u32) {
    && price % TICK == 0 && g.base != NO_BASE && CellOf(g.base, g.span, price) < 0
    && (0 <= g.best < |g.cells| ==> Better(g.side, price, g.cells[g.best].price))
  }

  /** The base after an add at `price`. */
  function BaseAfterAdd(g: Grid, price: u32): u32 {
    if price % TICK == 0 && (g.base == NO_BASE || Moves(g, price)) then CentreBase(price, g.span) else g.base
  }

  /**
   From `g` to `h` the window stood still, or moved once, to be centred on the best price of the side, a whole cent
   that the window did not reach before.
   */
  ghost predicate Followed(g: Grid, h: Grid, moves: int)
    requires Shape(h)
  {
    if moves == 0 then h.base == g.base
    else
      moves == 1 && exists p: u32 {:trigger Best(h, p)} ::
        Best(h, p) && p % TICK == 0 && Centred(h.base, h.span, p) && CellOf(g.base, g.span, p) < 0
  }

  /** The best price, if there is one, is a whole cent that a window centred on `centre` reaches. */
  ghost predicate CentreReachesBest(g: Grid, centre: u32)
    requires Shape(g)
  {
    forall p {:trigger Best(g, p)} | Best(g, p) :: CellOf(CentreBase(centre, g.span), g.span, p) >= 0
  }

  /** A window moved anywhere holds the best level exactly when it reaches the best price. */
  lemma MovedHoldsBest(g: Grid, h: Grid, centre: u32)
    requires Shape(g) && Sound(h) && SameTable(g, h) && g.side == h.side && g.span == h.span
    requires h.base == CentreBase(centre, g.span)
    ensures BestInArray(h) <==> CentreReachesBest(g, centre)
  {
    forall p ensures Best(h, p) == Best(g, p) {
      SameBest(g, h, p);
    }
    BestInArrayExactly(h);
  }

  lemma SameBest(g: Grid, h: Grid, p: u32)
    requires Shape(g) && Shape(h) && SameTable(g, h) && g.side == h.side
    ensures Best(h, p) == Best(g, p)
  {
    forall q ensures At(h, q) == At(g, q) {
    }
  }

  /** A window moved onto the best price holds it. */
  lemma MovedOntoBest(g: Grid, h: Grid, p: u32)
    requires Sound(g) && Sound(h) && g.side == h.side && Best(g, p)
    requires SameTable(g, h)
    requires CellOf(h.base, h.span, p) >= 0
    ensures BestInArray(h)
  {
    forall q | Best(h, q) ensures q == p {
      assert At(h, q) == At(g, q) && At(h, p) == At(g, p);
    }
    BestInArrayExactly(h);
  }

  /** A step that adds nothing to the map and does not worsen the best of the array. */
  lemma StaysInArray(g: Grid, h: Grid)
    requires BestInArray(g) && g.side == h.side && h.far.Keys <= g.far.Keys
    requires 0 <= g.best < |g.cells| ==>
      && 0 <= h.best < |h.cells|
      && (h.cells[h.best].price == g.cells[g.best].price
          || Better(g.side, h.cells[h.best].price, g.cells[g.best].price))
    ensures BestInArray(h)
  {
    forall p | p in h.far ensures 0 <= h.best < |h.cells| && Better(h.side, h.cells[h.best].price, p) {
      assert p in g.far;
    }
  }

  lemma CellAddInArray(g: Grid, c: nat, price: u32, shares: u32)
    requires Sound(g) && c < |g.cells| && CellOf(g.base, g.span, price) == c
    requires g.cells[c].shares + shares < TWO_64 && g.cells[c].orders + 1 < TWO_32
    requires BestInArray(g)
    ensures BestInArray(CellAdded(g, c, price, shares))
  {
    assert CellOk(g, c);
    assert g.best >= 0 ==> CellOk(g, g.best);
    StaysInArray(g, CellAdded(g, c, price, shares));
  }

  lemma CellAddKeepsBest(g: Grid, c: nat, price: u32, shares: u32)
    requires Sound(g) && c < |g.cells| && CellOf(g.base, g.span, price) == c
    requires g.cells[c].shares + shares < TWO_64 && g.cells[c].orders + 1 < TWO_32
    ensures -1 <= g.best < |g.cells|
    ensures BestInArray(g) ==> BestInArray(CellAdded(g, c, price, shares))
  {
    if BestInArray(g) {
      CellAddInArray(g, c, price, shares);
    }
  }

  /** A new level of the map that the array does not beat is the best of the side. */
  lemma FarTopIsBest(g: Grid, price: u32, l: Level)
    requires Sound(g) && BestInArray(g)
    requires Sound(g.(far := g.far[price := l])) && CellOf(g.base, g.span, price) == -1 && l.orders != 0
    requires g.best < 0 || Better(g.side, price, g.cells[g.best].price)
    ensures Best(g.(far := g.far[price := l]), price)
  {
    var h := g.(far := g.far[price := l]);
    var p := BestOfFar(h, price);
    assert p in g.far ==> p == price || Better(g.side, price, p);
  }

  lemma FarAddInArray(g: Grid, price: u32, l: Level)
    requires Sound(g) && BestInArray(g) && CellOf(g.base, g.span, price) == -1
    requires g.best >= 0 && !Better(g.side, price, g.cells[g.best].price)
    ensures BestInArray(g.(far := g.far[price := l]))
  {
    BestCell(g);
  }

  /** After the best cell is vacated: unless the best of the map now leads, the array still holds the best. */
  lemma VacatedInArray(h: Grid)
    requires Sound(h)
    ensures h.far != map[] ==>
      var fb := FarBestPrice(h.side, h.far);
      (h.best < 0 || Better(h.side, fb, h.cells[h.best].price)) ==> Best(h, fb)
    ensures h.best < |h.cells|
    ensures (h.far != map[] ==>
               var fb := FarBestPrice(h.side, h.far);
               !(h.best < 0 || Better(h.side, fb, h.cells[h.best].price))) ==> BestInArray(h)
  {
    if h.best >= 0 {
      BestCell(h);
    }
    if h.far != map[] {
      var fb := FarBestPrice(h.side, h.far);
      assert FarOk(h, fb);
      if h.best < 0 || Better(h.side, fb, h.cells[h.best].price) {
        var p := BestOfFar(h, fb);
      }
    }
  }

  /** A best cell that no level of the map beats is the best of the side. */
  lemma ArrayBestIsBest(g: Grid)
    requires Sound(g) && g.best >= 0
    requires g.far != map[] ==> !Better(g.side, FarBestPrice(g.side, g.far), g.cells[g.best].price)
    ensures g.best < |g.cells| && Best(g, g.cells[g.best].price)
  {
    BestCell(g);
    forall q | At(g, q).orders != 0 ensures q == g.cells[g.best].price || Better(g.side, g.cells[g.best].price, q) {
      if CellOf(g.base, g.span, q) >= 0 {
        BestOfCells(g, q);
      }
    }
  }

  lemma NoLevels(g: Grid)
    requires Sound(g) && g.best < 0 && g.far == map[]
    ensures forall p :: At(g, p).orders == 0
  {
    forall p ensures At(g, p).orders == 0 {
      if CellOf(g.base, g.span, p) >= 0 && At(g, p).orders != 0 {
        BestOfCells(g, p);
      }
    }
  }
}
