/**
 Walking a side: scanning bitmap words from either end, listing levels, and what a list of
 levels says about each price.
 */
module LadderScan {
  import opened Words
  import opened Ladder
  import opened SortedMap

  // ---- one word, lowest or highest bit first ----

  /** `word` holds the bits of `full` from `lo` up. */
  ghost predicate From(word: u64, full: u64, lo: nat) {
    forall k: nat {:trigger Bit(word, k)} | k < 64 :: Bit(word, k) == (lo <= k && Bit(full, k))
  }

  /** `word` holds the bits of `full` below `hi`. */
  ghost predicate Upto(word: u64, full: u64, hi: nat) {
    forall k: nat {:trigger Bit(word, k)} | k < 64 :: Bit(word, k) == (k < hi && Bit(full, k))
  }

  lemma LowestSet(word: u64)
    requires word != 0
    ensures var b := CountrZero(word, 0);
      b < 64 && Bit(word, b) && forall k: nat | k < b :: !Bit(word, k)
  {
    CountrZeroFinds(word, 0);
    Pow2Of64();
    var k := NonZeroHasBit(word, 64);
  }

  lemma HighestSet(word: u64)
    requires word != 0
    ensures CountlZero(word, 64) < 64
    ensures var b := 63 - CountlZero(word, 64);
      Bit(word, b) && forall k: nat | b < k < 64 :: !Bit(word, k)
  {
    CountlZeroFinds(word, 64);
    Pow2Of64();
    var k := NonZeroHasBit(word, 64);
  }

  lemma LowestBit(word: u64, full: u64, lo: nat)
    requires From(word, full, lo) && word != 0
    ensures var b := CountrZero(word, 0);
      && lo <= b < 64
      && Bit(full, b)
      && (forall k: nat | lo <= k < b :: !Bit(full, k))
      && And(word, word - 1) < word
      && From(And(word, word - 1), full, b + 1)
  {
    var b := CountrZero(word, 0);
    LowestSet(word);
    AndBound(word, word - 1);
    var rest := And(word, word - 1);
    forall k: nat {:trigger Bit(rest, k)} | k < 64 ensures Bit(rest, k) == (b + 1 <= k && Bit(full, k)) {
      ClearLowest(word, b, k);
      assert k < b ==> !Bit(word, k);
    }
    forall k: nat | lo <= k < b ensures !Bit(full, k) {
      assert !Bit(word, k);
    }
  }

  lemma HighestBit(word: u64, full: u64, hi: nat)
    requires Upto(word, full, hi) && word != 0
    ensures CountlZero(word, 64) < 64
    ensures var b := 63 - CountlZero(word, 64);
      && b < hi
      && Bit(full, b)
      && (forall k: nat | b < k < hi && k < 64 :: !Bit(full, k))
      && AndNot(word, Pow2(b)) < word
      && Upto(AndNot(word, Pow2(b)), full, b)
  {
    HighestSet(word);
    var b := 63 - CountlZero(word, 64);
    forall k: nat | b < k < hi && k < 64 ensures !Bit(full, k) {
      assert !Bit(word, k);
    }
    forall k: nat | k < 64 ensures Bit(AndNot(word, Pow2(b)), k) == (k < b && Bit(full, k)) {
      BitAndNot(word, Pow2(b), k);
      BitOfPow2(b, k);
      assert k > b ==> !Bit(word, k);
    }
    AndNotBound(word, Pow2(b));
    BitAndNot(word, Pow2(b), b);
    BitOfPow2(b, b);
  }

  lemma ZeroFrom(full: u64, lo: nat)
    requires From(0, full, lo)
    ensures forall k: nat | lo <= k < 64 :: !Bit(full, k)
  {
    forall k: nat | lo <= k < 64 ensures !Bit(full, k) {
      BitZero(k);
      assert !Bit(0, k);
    }
  }

  lemma ZeroUpto(full: u64, hi: nat)
    requires Upto(0, full, hi) && hi <= 64
    ensures forall k: nat | k < hi :: !Bit(full, k)
  {
    forall k: nat | k < hi ensures !Bit(full, k) {
      BitZero(k);
      assert !Bit(0, k);
    }
  }

  // ---- listing the occupied cells ----

  /** The occupied cells from `k` on, highest first. */
  function Down(cells: seq<Level>, k: nat): (s: seq<Level>)
    requires k <= |cells|
    decreases |cells| - k
  {
    if k == |cells| then []
    else if cells[k].orders != 0 then Down(cells, k + 1) + [cells[k]]
    else Down(cells, k + 1)
  }

  lemma {:induction false} UpGap(cells: seq<Level>, a: nat, b: nat)
    requires a <= b <= |cells| && forall i | a <= i < b :: cells[i].orders == 0
    ensures Up(cells, a) == Up(cells, b)
  {
    if a < b {
      UpGap(cells, a, b - 1);
    }
  }

  lemma {:induction false} DownGap(cells: seq<Level>, a: nat, b: nat)
    requires a <= b <= |cells| && forall i | a <= i < b :: cells[i].orders == 0
    ensures Down(cells, a) == Down(cells, b)
    decreases b - a
  {
    if a < b {
      DownGap(cells, a + 1, b);
    }
  }

  /** The bits of word `w` tell which of its cells are occupied. */
  lemma WordCells(g: Grid, w: nat)
    requires Sound(g) && w < |g.bits|
    ensures forall k: nat | k < 64 :: Bit(g.bits[w], k) == (g.cells[64 * w + k].orders != 0)
  {
    forall k: nat | k < 64 ensures Bit(g.bits[w], k) == (g.cells[64 * w + k].orders != 0) {
      assert CellOk(g, 64 * w + k);
    }
  }

  /** Cells of word `w` between two bits are empty when those bits are clear. */
  lemma ClearBetween(g: Grid, w: nat, a: nat, b: nat)
    requires Sound(g) && w < |g.bits| && a <= b <= 64
    requires forall k: nat | a <= k < b :: !Bit(g.bits[w], k)
    ensures forall i | 64 * w + a <= i < 64 * w + b :: g.cells[i].orders == 0
  {
    WordCells(g, w);
    forall i | 64 * w + a <= i < 64 * w + b ensures g.cells[i].orders == 0 {
      assert !Bit(g.bits[w], i - 64 * w);
    }
  }

  lemma UpNext(cells: seq<Level>, a: nat, k: nat)
    requires a <= k < |cells| && cells[k].orders != 0
    requires forall i | a <= i < k :: cells[i].orders == 0
    ensures Up(cells, k) == Up(cells, a)
    ensures Up(cells, k + 1) == Up(cells, a) + [cells[k]]
  {
    UpGap(cells, a, k);
  }

  /** The first set bit of word `w` from `lo` up is the next cell to list. */
  lemma UpFound(g: Grid, w: nat, lo: nat, b: nat)
    requires Sound(g) && w < |g.bits| && lo <= b < 64
    requires Bit(g.bits[w], b) && forall k: nat | lo <= k < b :: !Bit(g.bits[w], k)
    ensures Up(g.cells, 64 * w + b) == Up(g.cells, 64 * w + lo)
    ensures Up(g.cells, 64 * w + b + 1) == Up(g.cells, 64 * w + lo) + [g.cells[64 * w + b]]
  {
    ClearBetween(g, w, lo, b);
    assert CellOk(g, 64 * w + b);
    UpNext(g.cells, 64 * w + lo, 64 * w + b);
  }

  /** One step of a walk up word `w`, which has listed the cells below bit `lo`. */
  lemma UpStep(g: Grid, w: nat, word: u64, lo: nat)
    requires Sound(g) && w < |g.bits| && lo <= 64 && word != 0
    requires From(word, g.bits[w], lo)
    ensures var b := CountrZero(word, 0);
      && lo <= b < 64
      && Up(g.cells, 64 * w + b + 1) == Up(g.cells, 64 * w + lo) + [g.cells[64 * w + b]]
      && And(word, word - 1) < word
      && From(And(word, word - 1), g.bits[w], b + 1)
  {
    LowestBit(word, g.bits[w], lo);
    UpFound(g, w, lo, CountrZero(word, 0));
  }

  lemma UpDone(g: Grid, w: nat, lo: nat)
    requires Sound(g) && w < |g.bits| && lo <= 64 && From(0, g.bits[w], lo)
    ensures Up(g.cells, 64 * w + lo) == Up(g.cells, 64 * w + 64)
  {
    ZeroFrom(g.bits[w], lo);
    ClearBetween(g, w, lo, 64);
    UpGap(g.cells, 64 * w + lo, 64 * w + 64);
  }

  /** The last set bit of word `w` below `hi` is the next cell to list. */
  lemma DownFound(g: Grid, w: nat, hi: nat, b: nat)
    requires Sound(g) && w < |g.bits| && b < hi <= 64
    requires Bit(g.bits[w], b) && forall k: nat | b < k < hi :: !Bit(g.bits[w], k)
    ensures Down(g.cells, 64 * w + b) == Down(g.cells, 64 * w + hi) + [g.cells[64 * w + b]]
  {
    ClearBetween(g, w, b + 1, hi);
    DownGap(g.cells, 64 * w + b + 1, 64 * w + hi);
    assert CellOk(g, 64 * w + b);
  }

  /** One step of a walk down word `w`, which has listed the cells from bit `hi` on. */
  lemma DownStep(g: Grid, w: nat, word: u64, hi: nat)
    requires Sound(g) && w < |g.bits| && hi <= 64 && word != 0
    requires Upto(word, g.bits[w], hi)
    ensures CountlZero(word, 64) < 64
    ensures var b := 63 - CountlZero(word, 64);
      && b < hi
      && Down(g.cells, 64 * w + b) == Down(g.cells, 64 * w + hi) + [g.cells[64 * w + b]]
      && AndNot(word, Pow2(b)) < word
      && Upto(AndNot(word, Pow2(b)), g.bits[w], b)
  {
    HighestBit(word, g.bits[w], hi);
    DownFound(g, w, hi, 63 - CountlZero(word, 64));
  }

  lemma DownDone(g: Grid, w: nat, hi: nat)
    requires Sound(g) && w < |g.bits| && hi <= 64 && Upto(0, g.bits[w], hi)
    ensures Down(g.cells, 64 * w + hi) == Down(g.cells, 64 * w)
  {
    ZeroUpto(g.bits[w], hi);
    ClearBetween(g, w, 0, hi);
    DownGap(g.cells, 64 * w, 64 * w + hi);
  }

  // ---- what a list of levels says about a price ----

  /** The tally of the last of the first `k` levels at price `p`. */
  ghost function Listed(s: seq<Level>, k: nat, p: u32): Tally
    requires k <= |s|
  {
    if k == 0 then NOTHING
    else if s[k - 1].price == p then Tally(s[k - 1].shares, s[k - 1].orders)
    else Listed(s, k - 1, p)
  }

  /** No price twice, and no empty level. */
  ghost predicate Distinct(s: seq<Level>) {
    && (forall i | 0 <= i < |s| :: s[i].orders != 0)
    && (forall i, j | 0 <= i < j < |s| :: s[i].price != s[j].price)
  }

  lemma {:induction false} ListedPrefix(a: seq<Level>, b: seq<Level>, k: nat, p: u32)
    requires k <= |a| && k <= |b| && forall i | 0 <= i < k :: a[i] == b[i]
    ensures Listed(a, k, p) == Listed(b, k, p)
  {
    if k > 0 {
      ListedPrefix(a, b, k - 1, p);
    }
  }

  lemma {:induction false} NotListed(s: seq<Level>, k: nat, p: u32)
    requires k <= |s| && forall i | 0 <= i < k :: s[i].price != p
    ensures Listed(s, k, p) == NOTHING
  {
    if k > 0 {
      NotListed(s, k - 1, p);
    }
  }

  lemma {:induction false} ListedOnce(s: seq<Level>, k: nat, i: nat)
    requires Distinct(s) && i < k <= |s|
    ensures Listed(s, k, s[i].price) == Tally(s[i].shares, s[i].orders)
  {
    if i < k - 1 {
      ListedOnce(s, k - 1, i);
    }
  }

  /** A price with a tally appears in the list. */
  lemma {:induction false} ListedAppears(s: seq<Level>, k: nat, p: u32) returns (i: nat)
    requires k <= |s| && Listed(s, k, p) != NOTHING
    ensures i < k && s[i].price == p && Listed(s, k, p) == Tally(s[i].shares, s[i].orders)
  {
    if s[k - 1].price == p {
      i := k - 1;
    } else {
      i := ListedAppears(s, k - 1, p);
    }
  }

  lemma {:induction false} ListedConcat(a: seq<Level>, b: seq<Level>, k: nat, p: u32)
    requires k <= |b| && forall i | 0 <= i < |b| :: b[i].orders != 0
    ensures Listed(a + b, |a| + k, p) == if Listed(b, k, p) != NOTHING then Listed(b, k, p) else Listed(a, |a|, p)
  {
    if k == 0 {
      ListedPrefix(a + b, a, |a|, p);
    } else {
      ListedConcat(a, b, k - 1, p);
    }
  }

  /** The levels of a map, in ascending order of price. */
  function FarLevels(far: map<u32, Level>): (s: seq<Level>)
    ensures |s| == |SortedKeys(far.Keys)|
  {
    var keys := SortedKeys(far.Keys);
    seq(|keys|, i requires 0 <= i < |keys| => assert keys[i] in keys; far[keys[i]])
  }

  /** A level of the cell list sits in its own cell. */
  lemma {:induction false} UpLevels(g: Grid, k: nat)
    requires Sound(g) && k <= |g.cells|
    ensures forall j | 0 <= j < |Up(g.cells, k)| ::
      var l := Up(g.cells, k)[j];
      l.orders != 0 && 0 <= CellOf(g.base, g.span, l.price) < k
    ensures Rising(Up(g.cells, k))
  {
    if k > 0 {
      UpLevels(g, k - 1);
      assert CellOk(g, k - 1);
      var s, l := Up(g.cells, k - 1), g.cells[k - 1];
      if l.orders != 0 {
        forall j | 0 <= j < |s| ensures s[j].price < l.price {
          CellOrder(g.side, g.base, g.span, s[j].price, l.price);
        }
      }
    }
  }

  ghost predicate Rising(s: seq<Level>) {
    forall i, j | 0 <= i < j < |s| :: s[i].price < s[j].price
  }

  lemma {:induction false} UpListed(g: Grid, k: nat, p: u32)
    requires Sound(g) && k <= |g.cells|
    ensures var s := Up(g.cells, k);
      Listed(s, |s|, p) ==
        if 0 <= CellOf(g.base, g.span, p) < k then At(g, p) else NOTHING
  {
    if k > 0 {
      UpListed(g, k - 1, p);
      assert CellOk(g, k - 1);
      var s, t, l := Up(g.cells, k), Up(g.cells, k - 1), g.cells[k - 1];
      if l.orders != 0 {
        ListedPrefix(s, t, |t|, p);
        if CellOf(g.base, g.span, p) == k - 1 {
          CellOrder(g.side, g.base, g.span, p, l.price);
        }
      }
    }
  }

  lemma FarListed(g: Grid, p: u32)
    requires Sound(g)
    ensures var s := FarLevels(g.far);
      Rising(s) && Listed(s, |s|, p) == if p in g.far then Tally(g.far[p].shares, g.far[p].orders) else NOTHING
    ensures forall j | 0 <= j < |FarLevels(g.far)| ::
      var l := FarLevels(g.far)[j]; l.price in g.far && l == g.far[l.price] && l.orders != 0
  {
    var s, keys := FarLevels(g.far), SortedKeys(g.far.Keys);
    forall j | 0 <= j < |s|
      ensures s[j].price == keys[j] && s[j].price in g.far && s[j] == g.far[keys[j]] && s[j].orders != 0
    {
      assert keys[j] in keys;
      assert FarOk(g, keys[j]);
    }
    if p in g.far {
      assert p in keys;
      var j :| 0 <= j < |keys| && keys[j] == p;
      ListedOnce(s, |s|, j);
    } else {
      NotListed(s, |s|, p);
    }
  }

  /** Everything on a side, as `rebase` gathers it. */
  function AllLevels(g: Grid): seq<Level> {
    Up(g.cells, |g.cells|) + FarLevels(g.far)
  }

  /** The gathered list holds every level exactly once. */
  lemma GatheredDistinct(g: Grid)
    requires Sound(g)
    ensures Distinct(AllLevels(g))
  {
    var a, b := Up(g.cells, |g.cells|), FarLevels(g.far);
    UpLevels(g, |g.cells|);
    FarListed(g, 0);
    forall i, j | 0 <= i < |a| && 0 <= j < |b| ensures a[i].price != b[j].price {
      assert FarOk(g, b[j].price);
    }
  }

  ghost function CellsAt(g: Grid, p: u32): Tally {
    Listed(Up(g.cells, |g.cells|), |Up(g.cells, |g.cells|)|, p)
  }

  ghost function FarAt(g: Grid, p: u32): Tally {
    Listed(FarLevels(g.far), |FarLevels(g.far)|, p)
  }

  lemma ListedSum(a: seq<Level>, b: seq<Level>, p: u32)
    requires forall i | 0 <= i < |b| :: b[i].orders != 0
    ensures Listed(a + b, |a + b|, p) == if Listed(b, |b|, p) != NOTHING then Listed(b, |b|, p) else Listed(a, |a|, p)
  {
    ListedConcat(a, b, |b|, p);
    assert |a + b| == |a| + |b|;
  }

  lemma ListedBoth(g: Grid, p: u32)
    requires Sound(g)
    ensures Listed(AllLevels(g), |AllLevels(g)|, p) == if FarAt(g, p) != NOTHING then FarAt(g, p) else CellsAt(g, p)
  {
    FarListed(g, p);
    ListedSum(Up(g.cells, |g.cells|), FarLevels(g.far), p);
  }

  lemma FarAtIs(g: Grid, p: u32)
    requires Sound(g)
    ensures FarAt(g, p) == if p in g.far then Tally(g.far[p].shares, g.far[p].orders) else NOTHING
  {
    FarListed(g, p);
  }

  lemma CellsAtIs(g: Grid, p: u32)
    requires Sound(g)
    ensures CellsAt(g, p) == if CellOf(g.base, g.span, p) >= 0 then At(g, p) else NOTHING
  {
    UpListed(g, |g.cells|, p);
  }

  lemma GatheredListed(g: Grid, p: u32)
    requires Sound(g)
    ensures Listed(AllLevels(g), |AllLevels(g)|, p) == At(g, p)
  {
    ListedBoth(g, p);
    FarAtIs(g, p);
    CellsAtIs(g, p);
    assert p in g.far ==> FarOk(g, p);
  }
}
