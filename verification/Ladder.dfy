/**
 One side of a book at one moment: a window of one-cent cells with an occupancy bitmap, a count
 and a cached best cell, and a map of the levels outside the window.

 `At` reads the whole as a plain table from price to aggregate. The lemmas say what each
 elementary change of the representation does to that table.
 */
module Ladder {
  import opened Words

  const TICK: u32 := 100
  const NO_BASE: u32 := 0xFFFF_FFFF

  datatype Side = Buy | Sell

  datatype Level = Level(price: u32, shares: u64, orders: u32)

  const NO_LEVEL: Level := Level(0, 0, 0)

  /** The aggregate at a price; no orders means no level. */
  datatype Tally = Tally(shares: int, orders: int)

  const NOTHING: Tally := Tally(0, 0)

  datatype Grid = Grid(side: Side, span: u32, base: u32, cells: seq<Level>, bits: seq<u64>,
                       count: nat, best: int, far: map<u32, Level>)

  predicate Better(side: Side, a: u32, b: u32) {
    if side == Buy then a > b else a < b
  }

  /** The cell for a price, or -1 if it is not a whole cent inside the window. */
  function CellOf(base: u32, span: u32, price: u32): (c: int)
    ensures -1 <= c < span || c == -1
  {
    if base == NO_BASE || price % TICK != 0 then -1
    else
      var cents := price / TICK;
      if cents < base || cents - base >= span then -1 else cents - base
  }

  /** The first cell of a window centred on a price. */
  function CentreBase(price: u32, span: u32): (b: u32)
    ensures b != NO_BASE
  {
    var centre := price / TICK;
    if centre > span / 2 then centre - span / 2 else 0
  }

  /** The price stands in the middle of the window, or nearer its start where the window begins at zero. */
  predicate Centred(base: u32, span: u32, price: u32) {
    base + span / 2 == price / TICK || (base == 0 && price / TICK <= span / 2)
  }

  predicate BitAt(bits: seq<u64>, i: nat)
    requires i / 64 < |bits|
  {
    Bit(bits[i / 64], i % 64)
  }

  /** The occupied cells among the first `k`, lowest first. */
  function Up(cells: seq<Level>, k: nat): (s: seq<Level>)
    requires k <= |cells|
    ensures |s| <= k
  {
    if k == 0 then []
    else if cells[k - 1].orders != 0 then Up(cells, k - 1) + [cells[k - 1]]
    else Up(cells, k - 1)
  }

  ghost predicate Shape(g: Grid) {
    && g.span >= 64 && g.span % 64 == 0
    && |g.bits| * 64 == |g.cells|
    && (|g.cells| == 0 || |g.cells| == g.span)
  }

  ghost predicate CellOk(g: Grid, i: nat)
    requires i < |g.cells| == |g.bits| * 64
  {
    && BitAt(g.bits, i) == (g.cells[i].orders != 0)
    && (g.cells[i].orders == 0 ==> g.cells[i].shares == 0)
    && (g.cells[i].orders != 0 ==> CellOf(g.base, g.span, g.cells[i].price) == i)
  }

  /** A level in the map has its own price as key, holds orders, and would not fit in the window. */
  ghost predicate FarOk(g: Grid, p: u32) {
    && p in g.far
    && g.far[p].price == p
    && g.far[p].orders != 0
    && CellOf(g.base, g.span, p) == -1
    && (g.base == NO_BASE ==> p % TICK != 0)
  }

  /** `best` is the best set bit: the highest on the buy side, the lowest on the sell side, -1 if none. */
  ghost predicate Leads(side: Side, bits: seq<u64>, best: int) {
    && -1 <= best < 64 * |bits|
    && (best >= 0 ==> BitAt(bits, best))
    && forall i: nat {:trigger BitAt(bits, i)} | i < 64 * |bits| && BitAt(bits, i) ::
         best >= 0 && (if side == Buy then i <= best else best <= i)
  }

  ghost predicate Sound(g: Grid) {
    && Shape(g)
    && (forall i: nat {:trigger CellOk(g, i)} | i < |g.cells| :: CellOk(g, i))
    && (forall p {:trigger FarOk(g, p)} | p in g.far :: FarOk(g, p))
    && g.count == |Up(g.cells, |g.cells|)|
    && Leads(g.side, g.bits, g.best)
  }

  /** The side as a table from price to aggregate. */
  ghost function At(g: Grid, p: u32): Tally
    requires Shape(g)
  {
    var c := CellOf(g.base, g.span, p);
    if c >= 0 then (if g.cells == [] then NOTHING else Tally(g.cells[c].shares, g.cells[c].orders))
    else if p in g.far then Tally(g.far[p].shares, g.far[p].orders)
    else NOTHING
  }

  // ---- bitmap words ----

  function SetBit(bits: seq<u64>, i: nat): seq<u64>
    requires i / 64 < |bits|
  {
    WordFits(bits[i / 64], i % 64);
    bits[i / 64 := Or(bits[i / 64], Pow2(i % 64))]
  }

  function ClearBit(bits: seq<u64>, i: nat): seq<u64>
    requires i / 64 < |bits|
  {
    AndNotBound(bits[i / 64], Pow2(i % 64));
    bits[i / 64 := AndNot(bits[i / 64], Pow2(i % 64))]
  }

  lemma WordFits(w: u64, k: nat)
    requires k < 64
    ensures Or(w, Pow2(k)) < TWO_64
  {
    Pow2Of64();
    Pow2Increases(k, 64);
    OrBound(w, Pow2(k), 64);
  }

  lemma SetBitAt(bits: seq<u64>, i: nat, j: nat)
    requires i / 64 < |bits| && j / 64 < |bits|
    ensures BitAt(SetBit(bits, i), j) == (j == i || BitAt(bits, j))
  {
    if i / 64 == j / 64 {
      BitOr(bits[i / 64], Pow2(i % 64), j % 64);
      BitOfPow2(i % 64, j % 64);
    }
  }

  lemma ClearBitAt(bits: seq<u64>, i: nat, j: nat)
    requires i / 64 < |bits| && j / 64 < |bits|
    ensures BitAt(ClearBit(bits, i), j) == (j != i && BitAt(bits, j))
  {
    if i / 64 == j / 64 {
      BitAndNot(bits[i / 64], Pow2(i % 64), j % 64);
      BitOfPow2(i % 64, j % 64);
    }
  }

  // ---- cells and prices ----

  /** Cell `c` of a window is the cell of exactly one price, the whole cent `base + c`. */
  lemma CellInverse(base: u32, span: u32, p: u32, c: nat)
    requires c < span
    ensures CellOf(base, span, p) == c <==> base != NO_BASE && p == (base + c) * TICK
  {
    assert p == (base + c) * TICK ==> p / TICK == base + c;
  }

  /** Cells are ordered as prices are. */
  lemma CellOrder(side: Side, base: u32, span: u32, p: u32, q: u32)
    requires CellOf(base, span, p) >= 0 && CellOf(base, span, q) >= 0
    ensures CellOf(base, span, p) < CellOf(base, span, q) <==> p < q
    ensures CellOf(base, span, p) == CellOf(base, span, q) <==> p == q
  {
    CellInverse(base, span, p, CellOf(base, span, p));
    CellInverse(base, span, q, CellOf(base, span, q));
  }

  lemma {:induction false} UpUpdate(cells: seq<Level>, i: nat, l: Level, k: nat)
    requires i < |cells| && k <= |cells|
    ensures |Up(cells[i := l], k)| ==
      |Up(cells, k)| + (if i < k then Digit(l.orders != 0) - Digit(cells[i].orders != 0) else 0)
  {
    if k > 0 {
      UpUpdate(cells, i, l, k - 1);
    }
  }

  lemma {:induction false} UpEmpty(cells: seq<Level>, k: nat)
    requires k <= |cells| && forall i | 0 <= i < k :: cells[i].orders == 0
    ensures Up(cells, k) == []
  {
    if k > 0 {
      UpEmpty(cells, k - 1);
    }
  }

  // ---- changes of the representation ----

  /** Fixing the base of a side that never had one moves no level. */
  lemma BaseSet(g: Grid, base: u32)
    requires Sound(g) && g.base == NO_BASE && base != NO_BASE
    ensures Sound(g.(base := base))
    ensures forall p :: At(g.(base := base), p) == At(g, p)
  {
    var h := g.(base := base);
    forall i: nat | i < |h.cells| ensures CellOk(h, i) && h.cells[i].orders == 0 {
      assert CellOk(g, i);
    }
    forall p | p in h.far ensures FarOk(h, p) {
      assert FarOk(g, p);
    }
    forall p ensures At(h, p) == At(g, p) {
      assert p in g.far ==> FarOk(g, p);
      var c := CellOf(base, g.span, p);
      if c >= 0 && g.cells != [] {
        assert CellOk(h, c);
      }
    }
  }

  function EmptyCells(n: nat): (s: seq<Level>)
    ensures |s| == n && forall i | 0 <= i < n :: s[i] == NO_LEVEL
  {
    seq(n, _ => NO_LEVEL)
  }

  function ZeroWords(n: nat): (s: seq<u64>)
    ensures |s| == n && forall i | 0 <= i < n :: s[i] == 0
  {
    seq(n, _ => 0)
  }

  lemma ZeroWordAt(bits: seq<u64>, i: nat)
    requires i / 64 < |bits| && bits[i / 64] == 0
    ensures !BitAt(bits, i)
  {
    BitZero(i % 64);
  }

  /** Cells that were never allocated read as empty cells. */
  lemma Allocated(g: Grid)
    requires Sound(g) && g.cells == []
    ensures var h := g.(cells := EmptyCells(g.span), bits := ZeroWords(g.span / 64));
      Sound(h) && forall p :: At(h, p) == At(g, p)
  {
    var h := g.(cells := EmptyCells(g.span), bits := ZeroWords(g.span / 64));
    forall i: nat | i < |h.cells| ensures CellOk(h, i) && !BitAt(h.bits, i) {
      ZeroWordAt(h.bits, i);
    }
    forall p | p in h.far ensures FarOk(h, p) {
      assert FarOk(g, p);
    }
    UpEmpty(h.cells, |h.cells|);
  }

  /** Rewriting one cell, with the bit, the count and the best kept in step, rewrites one price. */
  lemma CellWrite(g: Grid, c: nat, l: Level, bits: seq<u64>, count: nat, best: int)
    requires Sound(g) && c < |g.cells| && |bits| == |g.bits|
    requires if l.orders == 0 then l.shares == 0 else CellOf(g.base, g.span, l.price) == c
    requires forall j: nat {:trigger BitAt(bits, j)} | j < |g.cells| ::
      BitAt(bits, j) == if j == c then l.orders != 0 else BitAt(g.bits, j)
    requires count == g.count + Digit(l.orders != 0) - Digit(g.cells[c].orders != 0)
    requires Leads(g.side, bits, best)
    ensures var h := g.(cells := g.cells[c := l], bits := bits, count := count, best := best);
      && Sound(h)
      && forall p :: At(h, p) == if CellOf(g.base, g.span, p) == c then Tally(l.shares, l.orders) else At(g, p)
  {
    var h := g.(cells := g.cells[c := l], bits := bits, count := count, best := best);
    forall i: nat | i < |h.cells| ensures CellOk(h, i) {
      assert CellOk(g, i);
      assert BitAt(bits, i) == if i == c then l.orders != 0 else BitAt(g.bits, i);
    }
    forall p | p in h.far ensures FarOk(h, p) {
      assert FarOk(g, p);
    }
    UpUpdate(g.cells, c, l, |g.cells|);
  }

  /** Rewriting or adding a level of the map rewrites one price. */
  lemma FarWrite(g: Grid, p: u32, l: Level)
    requires Sound(g) && l.price == p && l.orders != 0
    requires CellOf(g.base, g.span, p) == -1 && (g.base == NO_BASE ==> p % TICK != 0)
    ensures var h := g.(far := g.far[p := l]);
      && Sound(h)
      && forall q :: At(h, q) == if q == p then Tally(l.shares, l.orders) else At(g, q)
  {
    var h := g.(far := g.far[p := l]);
    forall i: nat | i < |h.cells| ensures CellOk(h, i) {
      assert CellOk(g, i);
    }
    forall q | q in h.far ensures FarOk(h, q) {
      assert q != p ==> FarOk(g, q);
    }
  }

  lemma FarDelete(g: Grid, p: u32)
    requires Sound(g) && p in g.far
    ensures var h := g.(far := g.far - {p});
      && Sound(h)
      && forall q :: At(h, q) == if q == p then NOTHING else At(g, q)
  {
    var h := g.(far := g.far - {p});
    assert FarOk(g, p);
    forall i: nat | i < |h.cells| ensures CellOk(h, i) {
      assert CellOk(g, i);
    }
    forall q | q in h.far ensures FarOk(h, q) {
      assert FarOk(g, q);
    }
  }
}
