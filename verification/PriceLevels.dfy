/** One side of a book: levels near the centre in an array of cents, the others in a map. */
module PriceWindow {
  import opened Words
  import opened Wrappers
  import opened Ladder
  import opened SortedMap
  import opened LadderScan
  import opened LadderOps
  import opened LadderMerge

  class PriceLevels {
    const side: Side
    const span: u32
    var base: u32
    var cells: seq<Level>
    var bits: seq<u64>
    var arrayCount: nat
    var bestCell: int
    var far: map<u32, Level>
    var rebases: nat

    ghost function State(): Grid
      reads this
    {
      Grid(side, span, base, cells, bits, arrayCount, bestCell, far)
    }

    ghost predicate Valid()
      reads this
    {
      Sound(State())
    }

    /** The aggregate at a price: what the side means, wherever its levels are kept. */
    ghost function TallyAt(p: u32): Tally
      requires Valid()
      reads this
    {
      At(State(), p)
    }

    constructor (side: Side, referencePrice: u32, tickSpan: u32)
      requires tickSpan >= 64 && tickSpan % 64 == 0
      ensures Valid() && this.side == side && span == tickSpan
      ensures EmptyTable(State()) && rebases == 0
      ensures base ==
        if referencePrice != 0 && referencePrice % TICK == 0 then CentreBase(referencePrice, span) else NO_BASE
      ensures referencePrice != 0 && referencePrice % TICK == 0 ==>
        base != NO_BASE && Centred(base, span, referencePrice)
      ensures WholeCents(State()) && BestInArray(State())
    {
      this.side := side;
      span := tickSpan;
      base := if referencePrice != 0 && referencePrice % TICK == 0 then CentreBase(referencePrice, tickSpan)
              else NO_BASE;
      cells, bits := [], [];
      arrayCount := 0;
      bestCell := -1;
      far := map[];
      rebases := 0;
    }

    /** The occupied cell with the best price, or -1: whole words of the bitmap are skipped at a time. */
    method ScanBest() returns (b: int)
      ensures Leads(side, bits, b)
    {
      if side == Buy {
        b := ScanDown();
      } else {
        b := ScanUp();
      }
    }

    method ScanDown() returns (b: int)
      ensures Leads(Buy, bits, b)
    {
      for w := |bits| downto 0
        invariant forall v | w <= v < |bits| :: bits[v] == 0
      {
        if bits[w] != 0 {
          TopBit(bits, w);
          return 64 * w + 63 - CountlZero(bits[w], 64);
        }
      }
      NoBits(bits);
      return -1;
    }

    method ScanUp() returns (b: int)
      ensures Leads(Sell, bits, b)
    {
      for w := 0 to |bits|
        invariant forall v | 0 <= v < w :: bits[v] == 0
      {
        if bits[w] != 0 {
          BottomBit(bits, w);
          return 64 * w + CountrZero(bits[w], 0);
        }
      }
      NoBits(bits);
      return -1;
    }

    method EnsureCells()
      modifies this`cells, this`bits
      ensures cells == if old(cells) == [] then EmptyCells(span) else old(cells)
      ensures bits == if old(cells) == [] then ZeroWords(span / 64) else old(bits)
    {
      if cells == [] {
        cells := EmptyCells(span);
        bits := ZeroWords(span / 64);
      }
    }

    method Reserve()
      requires Valid()
      modifies this`cells, this`bits
      ensures Valid() && cells != []
      ensures SameTable(old(State()), State())
      ensures BestInArray(State()) == old(BestInArray(State()))
      ensures old(WindowHoldsBest()) ==> WindowHoldsBest()
    {
      if cells == [] {
        Allocated(State());
      }
      EnsureCells();
    }

    /** Stores a level whose price has none, in its cell if the window has one and in the map if not. */
    method Place(l: Level)
      requires Valid() && cells != [] && base != NO_BASE
      requires l.orders != 0 && TallyAt(l.price) == NOTHING
      modifies this`cells, this`bits, this`arrayCount, this`bestCell, this`far
      ensures Valid() && cells != []
      ensures Changed(old(State()), State(), l.price, Tally(l.shares, l.orders))
    {
      ghost var g := State();
      var c := CellOf(base, span, l.price);
      if c < 0 {
        FarWrite(g, l.price, l);
        far := far[l.price := l];
        return;
      }
      CellPlace(g, c, l);
      cells := cells[c := l];
      bits := SetBit(bits, c);
      arrayCount := arrayCount + 1;
      if bestCell < 0 || Better(side, l.price, cells[bestCell].price) {
        bestCell := c;
      }
    }

    /** The first part of `rebase`: lists the array levels in cell order and clears their cells. */
    method Gather() returns (all: seq<Level>)
      requires Valid()
      modifies this`cells
      ensures all == Up(old(cells), |old(cells)|)
      ensures |cells| == |old(cells)|
      ensures forall i | 0 <= i < |cells| :: cells[i].orders == 0 && cells[i].shares == 0
    {
      ghost var g := State();
      all := [];
      for w := 0 to |bits|
        invariant all == Up(g.cells, 64 * w)
        invariant Swept(g, cells, 64 * w)
      {
        all := GatherWord(g, w, all);
      }
    }

    /** One word of the gather. */
    method GatherWord(ghost g: Grid, w: nat, before: seq<Level>) returns (all: seq<Level>)
      requires Sound(g) && bits == g.bits && w < |bits|
      requires before == Up(g.cells, 64 * w) && Swept(g, cells, 64 * w)
      modifies this`cells
      ensures all == Up(g.cells, 64 * w + 64) && Swept(g, cells, 64 * w + 64)
    {
      all := before;
      var word: u64 := bits[w];
      ghost var lo: nat := 0;
      while word != 0
        invariant lo <= 64 && From(word, g.bits[w], lo)
        invariant all == Up(g.cells, 64 * w + lo)
        invariant Swept(g, cells, 64 * w + lo)
        decreases word
      {
        lo := GatherStep(g, cells, all, w, word, lo);
        var bit := CountrZero(word, 0);
        all := all + [cells[64 * w + bit]];
        cells := cells[64 * w + bit := NO_LEVEL];
        word := And(word, word - 1);
      }
      GatherDone(g, cells, w, lo);
    }

    /** The last part of `rebase`: every level goes where it now belongs. */
    method PlaceAll(all: seq<Level>)
      requires Valid() && cells != [] && base != NO_BASE && Distinct(all) && EmptyTable(State())
      modifies this`cells, this`bits, this`arrayCount, this`bestCell, this`far
      ensures Valid() && cells != []
      ensures forall p :: At(State(), p) == Listed(all, |all|, p)
    {
      for k := 0 to |all|
        invariant Valid() && cells != []
        invariant forall p :: At(State(), p) == Listed(all, k, p)
      {
        ghost var h := State();
        NextUnplaced(h, all, k);
        Place(all[k]);
        PlaceStep(h, State(), all, k);
      }
    }

    /** Takes every level off the side: the array levels in cell order, then the map in key order. */
    method TakeAll() returns (all: seq<Level>)
      requires Valid()
      modifies this`cells, this`far
      ensures all == AllLevels(old(State())) && Distinct(all)
      ensures far == map[] && |cells| == |old(cells)|
      ensures forall i | 0 <= i < |cells| :: cells[i].orders == 0 && cells[i].shares == 0
    {
      GatheredDistinct(State());
      all := Gather();
      all := all + FarLevels(far);
      far := map[];
    }

    /** With every level taken, an empty window around the new centre. */
    method Recentre(centrePrice: u32)
      requires Shape(State()) && far == map[]
      requires forall i | 0 <= i < |cells| :: cells[i].orders == 0 && cells[i].shares == 0
      modifies this`base, this`cells, this`bits, this`arrayCount, this`bestCell, this`rebases
      ensures Valid() && cells != [] && EmptyTable(State())
      ensures base == CentreBase(centrePrice, span) && rebases == old(rebases) + 1
    {
      EnsureCells();
      bits := ZeroWords(span / 64);
      arrayCount := 0;
      bestCell := -1;
      base := CentreBase(centrePrice, span);
      rebases := rebases + 1;
      EmptySide(State());
    }

    /** Moves the window: gathers every level, re-centres, and puts every level back. */
    method Rebase(centrePrice: u32)
      requires Valid()
      modifies this`base, this`cells, this`bits, this`arrayCount, this`bestCell, this`far, this`rebases
      ensures Valid()
      ensures SameTable(old(State()), State())
      ensures base == CentreBase(centrePrice, span) && rebases == old(rebases) + 1
      ensures base != NO_BASE && Centred(base, span, centrePrice)
      ensures centrePrice % TICK == 0 ==> 0 <= CellOf(base, span, centrePrice) < |cells|
      ensures BestInArray(State()) <==> CentreReachesBest(old(State()), centrePrice)
    {
      ghost var g := State();
      var all := TakeAll();
      Recentre(centrePrice);
      PlaceAll(all);
      PlacedAll(g, State());
      MovedHoldsBest(g, State(), centrePrice);
    }

    /** Every level at a whole cent, the best of them in the array, the map strictly worse. */
    ghost predicate WindowHoldsBest()
      requires Valid()
      reads this
    {
      WholeCents(State()) && BestInArray(State())
    }

    /** An order of `shares` comes to `price`. */
    method Add(price: u32, shares: u32)
      requires Valid()
      requires TallyAt(price).shares + shares < TWO_64 && TallyAt(price).orders + 1 < TWO_32
      modifies this`base, this`cells, this`bits, this`arrayCount, this`bestCell, this`far, this`rebases
      ensures Valid()
      ensures Changed(old(State()), State(), price,
                      Tally(old(TallyAt(price)).shares + shares, old(TallyAt(price)).orders + 1))
      ensures base == BaseAfterAdd(old(State()), price) && rebases == old(rebases) + Digit(Moves(old(State()), price))
      ensures if price % TICK == 0 && (old(base) == NO_BASE || rebases != old(rebases)) then Centred(base, span, price)
              else base == old(base)
      ensures old(WindowHoldsBest()) && price % TICK == 0 ==> WindowHoldsBest()
    {
      if base == NO_BASE && price % TICK == 0 {
        BaseSet(State(), CentreBase(price, span));
        base := CentreBase(price, span);
      }
      var c := CellOf(base, span, price);
      if c >= 0 {
        AddToCell(c, price, shares);
      } else {
        AddToFar(price, shares);
      }
    }

    /** The cell branch of `add`. */
    method AddToCell(c: nat, price: u32, shares: u32)
      requires Valid() && CellOf(base, span, price) == c
      requires TallyAt(price).shares + shares < TWO_64 && TallyAt(price).orders + 1 < TWO_32
      modifies this`cells, this`bits, this`arrayCount, this`bestCell
      ensures Valid()
      ensures Changed(old(State()), State(), price,
                      Tally(old(TallyAt(price)).shares + shares, old(TallyAt(price)).orders + 1))
      ensures old(BestInArray(State())) ==> BestInArray(State())
    {
      Reserve();
      CellAdd(State(), c, price, shares);
      CellAddKeepsBest(State(), c, price, shares);
      Occupy(c, price, shares);
    }

    /** One more order in a cell, which may have been free. */
    method Occupy(c: nat, price: u32, shares: u32)
      requires Shape(State()) && c < |cells| && -1 <= bestCell < |cells|
      requires cells[c].shares + shares < TWO_64 && cells[c].orders + 1 < TWO_32
      modifies this`cells, this`bits, this`arrayCount, this`bestCell
      ensures State() == CellAdded(old(State()), c, price, shares)
    {
      ghost var g := State();
      if cells[c].orders == 0 {
        cells := cells[c := cells[c].(price := price)];
        bits := SetBit(bits, c);
        arrayCount := arrayCount + 1;
        if bestCell < 0 || Better(side, price, cells[bestCell].price) {
          bestCell := c;
        }
      }
      var l := cells[c];
      cells := cells[c := Level(l.price, l.shares + shares, l.orders + 1)];
      assert State() == CellAdded(g, c, price, shares);
    }

    /** The map branch of `add`: a level that is now the best of the side moves the window. */
    method AddToFar(price: u32, shares: u32)
      requires Valid() && CellOf(base, span, price) == -1 && (base == NO_BASE ==> price % TICK != 0)
      requires TallyAt(price).shares + shares < TWO_64 && TallyAt(price).orders + 1 < TWO_32
      modifies this`base, this`cells, this`bits, this`arrayCount, this`bestCell, this`far, this`rebases
      ensures Valid()
      ensures Changed(old(State()), State(), price,
                      Tally(old(TallyAt(price)).shares + shares, old(TallyAt(price)).orders + 1))
      ensures base == BaseAfterAdd(old(State()), price) && rebases == old(rebases) + Digit(Moves(old(State()), price))
      ensures old(BestInArray(State())) && price % TICK == 0 ==> BestInArray(State())
    {
      ghost var g := State();
      var was := if price in far then far[price] else NO_LEVEL;
      var l := Level(price, was.shares + shares, was.orders + 1);
      FarWrite(g, price, l);
      if bestCell >= 0 {
        BestCell(g);
      }
      far := far[price := l];
      if price % TICK == 0 && (bestCell < 0 || Better(side, price, cells[bestCell].price)) {
        ghost var h := State();
        if BestInArray(g) {
          FarTopIsBest(g, price, l);
        }
        Rebase(price);
        if BestInArray(g) {
          MovedOntoBest(h, State(), price);
        }
      } else if BestInArray(g) && price % TICK == 0 {
        FarAddInArray(g, price, l);
      }
    }

    /** A level loses shares and none of its orders; where the map has no level nothing happens. */
    method Reduce(price: u32, shares: u32)
      requires Valid()
      requires TallyAt(price).orders == 0 ==> CellOf(base, span, price) == -1
      requires TallyAt(price).orders != 0 ==> shares <= TallyAt(price).shares
      modifies this`cells, this`far
      ensures Valid()
      ensures var t := old(TallyAt(price));
        Changed(old(State()), State(), price, if t.orders == 0 then NOTHING else Tally(t.shares - shares, t.orders))
      ensures old(WindowHoldsBest()) ==> WindowHoldsBest()
    {
      ghost var g := State();
      var c := CellOf(base, span, price);
      if c >= 0 {
        CellTake(g, c, price, shares, 0);
        cells := cells[c := cells[c].(shares := cells[c].shares - shares)];
        ghost var l := g.cells[c];
        assert State() == g.(cells := g.cells[c := Level(l.price, l.shares - shares, l.orders - 0)]);
        return;
      }
      if price in far {
        assert FarOk(g, price);
        var l := far[price].(shares := far[price].shares - shares);
        FarWrite(g, price, l);
        far := far[price := l];
      }
    }

    /** A level loses one order with its shares; without orders left there is no level. */
    method Remove(price: u32, shares: u32)
      requires Valid()
      requires TallyAt(price).orders == 0 ==> CellOf(base, span, price) == -1
      requires TallyAt(price).orders != 0 ==> shares <= TallyAt(price).shares
      modifies this`base, this`cells, this`bits, this`arrayCount, this`bestCell, this`far, this`rebases
      ensures Valid()
      ensures var t := old(TallyAt(price));
        Changed(old(State()), State(), price,
                if t.orders <= 1 then NOTHING else Tally(t.shares - shares, t.orders - 1))
      ensures old(rebases) <= rebases <= old(rebases) + 1 && (rebases == old(rebases) ==> base == old(base))
      ensures old(WindowHoldsBest()) ==> WindowHoldsBest()
    {
      ghost var g := State();
      var c := CellOf(base, span, price);
      if c >= 0 {
        RemoveFromCell(c, price, shares);
        return;
      }
      if price !in far {
        return;
      }
      assert FarOk(g, price);
      var l := far[price].(shares := far[price].shares - shares, orders := far[price].orders - 1);
      if l.orders == 0 {
        FarDelete(g, price);
        far := far - {price};
      } else {
        FarWrite(g, price, l);
        far := far[price := l];
      }
      if BestInArray(g) {
        StaysInArray(g, State());
      }
    }

    /** The cell branch of `remove`: when the best cell empties, the window follows the market. */
    method RemoveFromCell(c: nat, price: u32, shares: u32)
      requires Valid() && CellOf(base, span, price) == c
      requires TallyAt(price).orders != 0 && shares <= TallyAt(price).shares
      modifies this`base, this`cells, this`bits, this`arrayCount, this`bestCell, this`far, this`rebases
      ensures Valid()
      ensures var t := old(TallyAt(price));
        Changed(old(State()), State(), price,
                if t.orders <= 1 then NOTHING else Tally(t.shares - shares, t.orders - 1))
      ensures Followed(old(State()), State(), rebases - old(rebases))
      ensures old(WindowHoldsBest()) ==> WindowHoldsBest()
    {
      ghost var g := State();
      var l := cells[c];
      if l.orders > 1 {
        CellTake(g, c, price, shares, 1);
        cells := cells[c := Level(l.price, l.shares - shares, l.orders - 1)];
        if BestInArray(g) {
          StaysInArray(g, State());
        }
        return;
      }
      VacateCell(c, price);
    }

    /** A cell loses its last order. */
    method VacateCell(c: nat, price: u32)
      requires Valid() && CellOf(base, span, price) == c
      requires TallyAt(price).orders != 0
      modifies this`base, this`cells, this`bits, this`arrayCount, this`bestCell, this`far, this`rebases
      ensures Valid()
      ensures Changed(old(State()), State(), price, NOTHING)
      ensures Followed(old(State()), State(), rebases - old(rebases))
      ensures old(WindowHoldsBest()) ==> WindowHoldsBest()
    {
      ghost var g := State();
      ClearCell(c);
      if bestCell == c {
        bestCell := ScanBest();
        CellVacate(g, c, price, bestCell);
        FollowMarket();
      } else {
        CellVacate(g, c, price, bestCell);
        if BestInArray(g) {
          StaysInArray(g, State());
        }
      }
    }

    /** Blanks an occupied cell and clears its bit; the price stays where it was. */
    method ClearCell(c: nat)
      requires Valid() && c < |cells| && cells[c].orders != 0
      modifies this`cells, this`bits, this`arrayCount
      ensures old(arrayCount) > 0
      ensures var g := old(State());
        State() == g.(cells := g.cells[c := Level(g.cells[c].price, 0, 0)], bits := ClearBit(g.bits, c),
                      count := g.count - 1)
    {
      UpUpdate(cells, c, Level(cells[c].price, 0, 0), |cells|);
      cells := cells[c := Level(cells[c].price, 0, 0)];
      bits := ClearBit(bits, c);
      arrayCount := arrayCount - 1;
    }

    /** Re-centres on the best of the map when it is a whole cent and beats the array. */
    method FollowMarket()
      requires Valid()
      modifies this`base, this`cells, this`bits, this`arrayCount, this`bestCell, this`far, this`rebases
      ensures Valid()
      ensures SameTable(old(State()), State())
      ensures Followed(old(State()), State(), rebases - old(rebases))
      ensures WholeCents(old(State())) ==> BestInArray(State())
    {
      ghost var h := State();
      VacatedInArray(h);
      if far != map[] {
        var fb := FarBestPrice(side, far);
        assert FarOk(h, fb);
        if fb % TICK == 0 && (bestCell < 0 || Better(side, fb, cells[bestCell].price)) {
          Rebase(fb);
          MovedOntoBest(h, State(), fb);
          SameBest(h, State(), fb);
        }
      }
    }

    /** The best level of the side, wherever it is kept. */
    method BestLevel() returns (r: Option<Level>)
      requires Valid()
      ensures r.None? ==> forall p :: At(State(), p).orders == 0
      ensures r.Some? ==>
        Best(State(), r.value.price) && At(State(), r.value.price) == Tally(r.value.shares, r.value.orders)
    {
      ghost var g := State();
      VacatedInArray(g);
      if bestCell >= 0 {
        BestCell(g);
        var a := cells[bestCell];
        if far != map[] {
          var fb := FarBestPrice(side, far);
          assert FarOk(g, fb);
          if Better(side, fb, a.price) {
            return Some(far[fb]);
          }
        }
        ArrayBestIsBest(g);
        return Some(a);
      }
      if far != map[] {
        assert FarOk(g, FarBestPrice(side, far));
        return Some(far[FarBestPrice(side, far)]);
      }
      NoLevels(g);
      return None;
    }

    /** The levels of the window as a list that begins with the best of them. */
    method ArrayLevels() returns (arr: seq<Level>)
      requires Valid()
      ensures CellList(State(), arr)
    {
      ghost var g := State();
      arr := [];
      if side == Buy {
        for w := |bits| downto 0
          invariant arr == Down(cells, 64 * w)
        {
          arr := DownWord(w, arr);
        }
        DownIsCellList(g);
      } else {
        for w := 0 to |bits|
          invariant arr == Up(cells, 64 * w)
        {
          arr := UpWord(w, arr);
        }
        UpIsCellList(g);
      }
    }

    method DownWord(w: nat, before: seq<Level>) returns (arr: seq<Level>)
      requires Valid() && w < |bits| && before == Down(cells, 64 * w + 64)
      ensures arr == Down(cells, 64 * w)
    {
      arr := before;
      var word: u64 := bits[w];
      ghost var hi: nat := 64;
      while word != 0
        invariant hi <= 64 && Upto(word, bits[w], hi)
        invariant arr == Down(cells, 64 * w + hi)
        decreases word
      {
        DownStep(State(), w, word, hi);
        var bit := 63 - CountlZero(word, 64);
        arr := arr + [cells[64 * w + bit]];
        word := AndNot(word, Pow2(bit));
        hi := bit;
      }
      DownDone(State(), w, hi);
    }

    method UpWord(w: nat, before: seq<Level>) returns (arr: seq<Level>)
      requires Valid() && w < |bits| && before == Up(cells, 64 * w)
      ensures arr == Up(cells, 64 * w + 64)
    {
      arr := before;
      var word: u64 := bits[w];
      ghost var lo: nat := 0;
      while word != 0
        invariant lo <= 64 && From(word, bits[w], lo)
        invariant arr == Up(cells, 64 * w + lo)
        decreases word
      {
        UpStep(State(), w, word, lo);
        var bit := CountrZero(word, 0);
        arr := arr + [cells[64 * w + bit]];
        word := And(word, word - 1);
        lo := bit + 1;
      }
      UpDone(State(), w, lo);
    }

    /** The whole side as a list that begins with its best level. */
    method Levels() returns (out: seq<Level>)
      requires Valid()
      ensures ListsAll(State(), out)
    {
      ghost var g := State();
      var arr := ArrayLevels();
      var tail := FarBestFirst(side, far);
      FarIsList(g);
      var i, j := 0, 0;
      out := [];
      while i < |arr| && j < |tail|
        invariant Merged(side, arr, tail, i, j, out)
        decreases |arr| - i + |tail| - j
      {
        HeadsDiffer(g, arr, tail, i, j);
        if Better(side, arr[i].price, tail[j].price) {
          TakeArr(side, arr, tail, i, j, out);
          out, i := out + [arr[i]], i + 1;
        } else {
          TakeFar(side, arr, tail, i, j, out);
          out, j := out + [tail[j]], j + 1;
        }
      }
      while i < |arr|
        invariant Merged(side, arr, tail, i, j, out)
        invariant i == |arr| || j == |tail|
      {
        TakeArr(side, arr, tail, i, j, out);
        out, i := out + [arr[i]], i + 1;
      }
      while j < |tail|
        invariant Merged(side, arr, tail, |arr|, j, out)
      {
        TakeFar(side, arr, tail, i, j, out);
        out, j := out + [tail[j]], j + 1;
      }
      MergedListsAll(g, arr, tail, out);
    }

    /** The full check, of any state whatever that has as many bits as cells. */
    method CheckInvariants() returns (ok: bool)
      requires Shape(State())
      ensures ok <==> Passes(State())
    {
      var cellsOk := CheckCells();
      if !cellsOk {
        return false;
      }
      var scanned := ScanBest();
      LeadsUnique(side, bits, scanned, bestCell);
      if scanned != bestCell {
        return false;
      }
      ok := CheckFar();
    }

    method CheckCells() returns (ok: bool)
      requires Shape(State())
      ensures ok <==> CellsPass(State()) && arrayCount == |Up(cells, |cells|)|
    {
      var counted := 0;
      for i := 0 to |cells|
        invariant counted == |Up(cells, i)|
        invariant forall k: nat {:trigger CellPasses(State(), k)} | k < i :: CellPasses(State(), k)
      {
        var occupied := cells[i].orders != 0;
        if BitAt(bits, i) != occupied {
          assert !CellPasses(State(), i);
          return false;
        }
        if occupied {
          counted := counted + 1;
          if cells[i].shares == 0 {
            assert !CellPasses(State(), i);
            return false;
          }
          if CellOf(base, span, cells[i].price) != i {
            assert !CellPasses(State(), i);
            return false;
          }
        }
        assert CellPasses(State(), i);
      }
      return counted == arrayCount;
    }

    method CheckFar() returns (ok: bool)
      ensures ok <==> FarPass(State())
    {
      var keys := SortedKeys(far.Keys);
      for k := 0 to |keys|
        invariant forall j {:trigger keys[j]} | 0 <= j < k :: FarPasses(State(), keys[j])
      {
        assert keys[k] in keys;
        var price, level := keys[k], far[keys[k]];
        if level.orders == 0 || level.shares == 0 || level.price != price {
          assert !FarPasses(State(), price);
          return false;
        }
        if CellOf(base, span, price) >= 0 {
          assert !FarPasses(State(), price);
          return false;
        }
        assert FarPasses(State(), price);
      }
      forall p | p in far ensures FarPasses(State(), p) {
        assert p in keys;
      }
      return true;
    }
  }

  // ---- scanning whole words ----

  lemma NoBits(bits: seq<u64>)
    requires forall v | 0 <= v < |bits| :: bits[v] == 0
    ensures Leads(Buy, bits, -1) && Leads(Sell, bits, -1)
  {
    forall i: nat | i < 64 * |bits| ensures !BitAt(bits, i) {
      ZeroWordAt(bits, i);
    }
  }

  lemma TopBit(bits: seq<u64>, w: nat)
    requires w < |bits| && bits[w] != 0
    requires forall v | w < v < |bits| :: bits[v] == 0
    ensures CountlZero(bits[w], 64) < 64
    ensures Leads(Buy, bits, 64 * w + 63 - CountlZero(bits[w], 64))
  {
    HighestSet(bits[w]);
    var b := 63 - CountlZero(bits[w], 64);
    forall i: nat | i < 64 * |bits| && BitAt(bits, i) ensures i <= 64 * w + b {
      if i / 64 > w {
        ZeroWordAt(bits, i);
      } else if i / 64 == w {
        assert i == 64 * w + i % 64 && Bit(bits[w], i % 64);
      }
    }
  }

  lemma BottomBit(bits: seq<u64>, w: nat)
    requires w < |bits| && bits[w] != 0
    requires forall v | 0 <= v < w :: bits[v] == 0
    ensures CountrZero(bits[w], 0) < 64
    ensures Leads(Sell, bits, 64 * w + CountrZero(bits[w], 0))
  {
    LowestSet(bits[w]);
    var b := CountrZero(bits[w], 0);
    forall i: nat | i < 64 * |bits| && BitAt(bits, i) ensures 64 * w + b <= i {
      if i / 64 < w {
        ZeroWordAt(bits, i);
      } else if i / 64 == w {
        assert i == 64 * w + i % 64 && Bit(bits[w], i % 64);
      }
    }
  }

  // ---- the full check ----

  /** The bit agrees with the cell, and an occupied cell holds shares and sits where its price belongs. */
  predicate CellPasses(g: Grid, i: nat)
    requires i < |g.cells| == |g.bits| * 64
  {
    && BitAt(g.bits, i) == (g.cells[i].orders != 0)
    && (g.cells[i].orders != 0 ==> g.cells[i].shares != 0 && CellOf(g.base, g.span, g.cells[i].price) == i)
  }

  predicate FarPasses(g: Grid, p: u32) {
    p in g.far ==>
      g.far[p].orders != 0 && g.far[p].shares != 0 && g.far[p].price == p && CellOf(g.base, g.span, p) < 0
  }

  ghost predicate CellsPass(g: Grid)
    requires Shape(g)
  {
    forall i: nat {:trigger CellPasses(g, i)} | i < |g.cells| :: CellPasses(g, i)
  }

  ghost predicate FarPass(g: Grid) {
    forall p {:trigger FarPasses(g, p)} | p in g.far :: FarPasses(g, p)
  }

  ghost predicate Passes(g: Grid)
    requires Shape(g)
  {
    CellsPass(g) && g.count == |Up(g.cells, |g.cells|)| && Leads(g.side, g.bits, g.best) && FarPass(g)
  }

  /** What the check does not look at: shares left in a free cell, and whole cents in the map of a baseless side. */
  ghost predicate NothingStale(g: Grid) {
    && (forall i | 0 <= i < |g.cells| :: g.cells[i].orders == 0 ==> g.cells[i].shares == 0)
    && (g.base == NO_BASE ==> forall p | p in g.far :: p % TICK != 0)
  }

  lemma SoundNothingStale(g: Grid)
    requires Sound(g)
    ensures NothingStale(g)
  {
    forall i: nat | i < |g.cells| ensures g.cells[i].orders == 0 ==> g.cells[i].shares == 0 {
      assert CellOk(g, i);
    }
    forall p | p in g.far ensures g.base == NO_BASE ==> p % TICK != 0 {
      assert FarOk(g, p);
    }
  }

  /** A side is sound, with no level whose orders hold no shares, exactly when it passes and nothing stale is left. */
  lemma PassesExactly(g: Grid)
    requires Shape(g)
    ensures Sound(g) && NoEmptyLevel(g) <==> Passes(g) && NothingStale(g)
  {
    if Sound(g) && NoEmptyLevel(g) {
      SoundNothingStale(g);
      forall i: nat | i < |g.cells| ensures CellPasses(g, i) {
        assert CellOk(g, i);
        assert g.cells[i].orders != 0 ==> At(g, g.cells[i].price).orders != 0;
      }
      forall p | p in g.far ensures FarPasses(g, p) {
        assert FarOk(g, p) && At(g, p).orders != 0;
      }
    }
    if Passes(g) && NothingStale(g) {
      forall i: nat | i < |g.cells| ensures CellOk(g, i) {
        assert CellPasses(g, i);
      }
      forall p | p in g.far ensures FarOk(g, p) {
        assert FarPasses(g, p);
      }
      forall p | At(g, p).orders != 0 ensures At(g, p).shares != 0 {
        var c := CellOf(g.base, g.span, p);
        assert c >= 0 ==> CellPasses(g, c);
        assert c < 0 ==> FarPasses(g, p);
      }
    }
  }

  /** Such a state: five shares left in a free cell pass the check, and would be credited to the next order there. */
  lemma StaleSharesPass()
    ensures var g := Grid(Buy, 64, 0, EmptyCells(64)[7 := Level(700, 5, 0)], ZeroWords(1), 0, -1, map[]);
      Passes(g) && !Sound(g)
  {
    var cells := EmptyCells(64)[7 := Level(700, 5, 0)];
    var g := Grid(Buy, 64, 0, cells, ZeroWords(1), 0, -1, map[]);
    UpEmpty(cells, 64);
    forall i: nat | i < 64 ensures CellPasses(g, i) && !BitAt(g.bits, i) {
      ZeroWordAt(g.bits, i);
    }
    assert !CellOk(g, 7);
  }

  lemma LeadsUnique(side: Side, bits: seq<u64>, a: int, b: int)
    requires Leads(side, bits, a)
    ensures a == b <==> Leads(side, bits, b)
  {
    if Leads(side, bits, b) {
      assert a >= 0 ==> BitAt(bits, a);
      assert b >= 0 ==> BitAt(bits, b);
    }
  }

  // ---- where the best level can be ----

  /** The first level listed is the best one. */
  lemma HeadIsBest(g: Grid, out: seq<Level>)
    requires Sound(g) && ListsAll(g, out)
    ensures out == [] <==> forall p :: At(g, p).orders == 0
    ensures out != [] ==> Best(g, out[0].price)
  {
    if out != [] {
      assert At(g, out[0].price).orders != 0;
      forall q | At(g, q).orders != 0 ensures q == out[0].price || Better(g.side, out[0].price, q) {
        var k :| 0 <= k < |out| && out[k].price == q;
      }
    }
  }

  /**
   The claim that after a re-centring the best is in the array needs whole-cent prices. Here the
   third add re-centres on 20.00, and the sub-penny level at 20.005 is still the best.
   */
  method SubPennyShadow() returns (bids: PriceLevels)
    ensures bids.Valid() && !BestInArray(bids.State())
    ensures bids.rebases == 1 && bids.base == CentreBase(20_0000, bids.span)
  {
    bids := new PriceLevels(Buy, 0, 1024);
    bids.Add(100_00, 1);
    bids.Add(20_0050, 1);
    ghost var g := bids.State();
    assert At(g, 100_00).orders == 1;
    if g.best >= 0 {
      BestCell(g);
    }
    bids.Add(20_0000, 1);
    BestInArrayExactly(bids.State());
    assert Best(bids.State(), 20_0050);
  }
}
