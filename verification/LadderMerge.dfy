/** Listing a whole side, best price first: two sorted lists merged into one. */
module LadderMerge {
  import opened Words
  import opened Ladder
  import opened SortedMap
  import opened LadderScan

  /** Strictly best first. */
  ghost predicate BestFirst(side: Side, s: seq<Level>) {
    forall i, j | 0 <= i < j < |s| :: Better(side, s[i].price, s[j].price)
  }

  /** Every live level of the side once, best first, each with its aggregate. */
  ghost predicate ListsAll(g: Grid, out: seq<Level>)
    requires Shape(g)
  {
    && BestFirst(g.side, out)
    && (forall k | 0 <= k < |out| :: out[k].orders != 0 && At(g, out[k].price) == Tally(out[k].shares, out[k].orders))
    && (forall p {:trigger At(g, p)} :: At(g, p).orders != 0 ==> exists k :: 0 <= k < |out| && out[k].price == p)
  }

  /** `l` is the level in an occupied cell. */
  ghost predicate InCells(g: Grid, l: Level)
    requires Shape(g)
  {
    var c := CellOf(g.base, g.span, l.price);
    0 <= c < |g.cells| && g.cells[c] == l && l.orders != 0
  }

  ghost predicate InFar(g: Grid, l: Level) {
    l.price in g.far && g.far[l.price] == l
  }

  lemma {:induction false} UpMembers(g: Grid, k: nat)
    requires Sound(g) && k <= |g.cells|
    ensures forall l :: l in Up(g.cells, k) <==> InCells(g, l) && CellOf(g.base, g.span, l.price) < k
  {
    if k > 0 {
      UpMembers(g, k - 1);
      assert CellOk(g, k - 1);
    }
  }

  lemma {:induction false} DownMembers(g: Grid, k: nat)
    requires Sound(g) && k <= |g.cells|
    ensures forall l :: l in Down(g.cells, k) <==> InCells(g, l) && CellOf(g.base, g.span, l.price) >= k
    ensures BestFirst(Buy, Down(g.cells, k))
    decreases |g.cells| - k
  {
    if k < |g.cells| {
      DownMembers(g, k + 1);
      assert CellOk(g, k);
      var s, l := Down(g.cells, k + 1), g.cells[k];
      if l.orders != 0 {
        forall j | 0 <= j < |s| ensures s[j].price > l.price {
          assert s[j] in s;
          CellOrder(Buy, g.base, g.span, l.price, s[j].price);
        }
      }
    }
  }

  /** The list of the array part. */
  ghost predicate CellList(g: Grid, arr: seq<Level>)
    requires Shape(g)
  {
    BestFirst(g.side, arr) && forall l :: l in arr <==> InCells(g, l)
  }

  ghost predicate FarList(g: Grid, far: seq<Level>) {
    BestFirst(g.side, far) && forall l :: l in far <==> InFar(g, l)
  }

  lemma UpIsCellList(g: Grid)
    requires Sound(g) && g.side == Sell
    ensures CellList(g, Up(g.cells, |g.cells|))
  {
    UpMembers(g, |g.cells|);
    UpLevels(g, |g.cells|);
  }

  lemma DownIsCellList(g: Grid)
    requires Sound(g) && g.side == Buy
    ensures CellList(g, Down(g.cells, 0))
  {
    DownMembers(g, 0);
  }

  function Reversed(s: seq<Level>): (r: seq<Level>)
    ensures |r| == |s| && forall i | 0 <= i < |s| :: r[i] == s[|s| - 1 - i]
  {
    seq(|s|, i requires 0 <= i < |s| => s[|s| - 1 - i])
  }

  /** The map in best-first order: backwards on the buy side. */
  function FarBestFirst(side: Side, far: map<u32, Level>): seq<Level> {
    if side == Buy then Reversed(FarLevels(far)) else FarLevels(far)
  }

  lemma ReversedList(s: seq<Level>)
    requires Rising(s)
    ensures BestFirst(Buy, Reversed(s))
    ensures forall l :: l in Reversed(s) <==> l in s
  {
    var r := Reversed(s);
    forall l | l in s ensures l in r {
      var j :| 0 <= j < |s| && s[j] == l;
      assert r[|s| - 1 - j] == l;
    }
  }

  lemma FarMembers(g: Grid, l: Level)
    requires Sound(g)
    ensures l in FarLevels(g.far) <==> InFar(g, l)
  {
    var s, keys := FarLevels(g.far), SortedKeys(g.far.Keys);
    if InFar(g, l) {
      assert l.price in keys;
      var j :| 0 <= j < |keys| && keys[j] == l.price;
      assert s[j] == l;
    } else if l in s {
      FarListed(g, 0);
    }
  }

  lemma FarIsList(g: Grid)
    requires Sound(g)
    ensures FarList(g, FarBestFirst(g.side, g.far))
  {
    FarListed(g, 0);
    ReversedList(FarLevels(g.far));
    forall l ensures l in FarLevels(g.far) <==> InFar(g, l) {
      FarMembers(g, l);
    }
  }

  /** The merge after it has taken `i` levels of one list and `j` of the other. */
  ghost predicate Merged(side: Side, arr: seq<Level>, far: seq<Level>, i: nat, j: nat, out: seq<Level>) {
    && i <= |arr| && j <= |far|
    && BestFirst(side, out)
    && (forall l :: l in out <==> l in arr[..i] || l in far[..j])
    && (forall l {:trigger l in out} :: l in out ==> i < |arr| ==> Better(side, l.price, arr[i].price))
    && (forall l {:trigger l in out} :: l in out ==> j < |far| ==> Better(side, l.price, far[j].price))
  }

  /** Taking the better head, or the only one left, keeps the merge going. */
  lemma TakeArr(side: Side, arr: seq<Level>, far: seq<Level>, i: nat, j: nat, out: seq<Level>)
    requires BestFirst(side, arr) && Merged(side, arr, far, i, j, out)
    requires i < |arr| && (j < |far| ==> Better(side, arr[i].price, far[j].price))
    ensures Merged(side, arr, far, i + 1, j, out + [arr[i]])
  {
    var out' := out + [arr[i]];
    assert arr[..i + 1] == arr[..i] + [arr[i]];
    forall l ensures l in out' <==> l in out || l == arr[i] {
    }
    AppendBestFirst(side, out, arr[i]);
  }

  lemma TakeFar(side: Side, arr: seq<Level>, far: seq<Level>, i: nat, j: nat, out: seq<Level>)
    requires BestFirst(side, far) && Merged(side, arr, far, i, j, out)
    requires j < |far| && (i < |arr| ==> Better(side, far[j].price, arr[i].price))
    ensures Merged(side, arr, far, i, j + 1, out + [far[j]])
  {
    var out' := out + [far[j]];
    assert far[..j + 1] == far[..j] + [far[j]];
    forall l ensures l in out' <==> l in out || l == far[j] {
    }
    AppendBestFirst(side, out, far[j]);
  }

  lemma AppendBestFirst(side: Side, out: seq<Level>, l: Level)
    requires BestFirst(side, out) && forall o {:trigger o in out} :: o in out ==> Better(side, o.price, l.price)
    ensures BestFirst(side, out + [l])
  {
    forall a | 0 <= a < |out| ensures Better(side, out[a].price, l.price) {
      assert out[a] in out;
    }
  }

  /** Heads of the two lists never have the same price. */
  lemma HeadsDiffer(g: Grid, arr: seq<Level>, far: seq<Level>, i: nat, j: nat)
    requires Sound(g) && CellList(g, arr) && FarList(g, far) && i < |arr| && j < |far|
    ensures arr[i].price != far[j].price
  {
    assert arr[i] in arr && far[j] in far;
    assert InCells(g, arr[i]) && InFar(g, far[j]);
    assert FarOk(g, far[j].price);
  }

  /** The finished merge lists the side. */
  lemma MergedListsAll(g: Grid, arr: seq<Level>, far: seq<Level>, out: seq<Level>)
    requires Sound(g) && CellList(g, arr) && FarList(g, far)
    requires Merged(g.side, arr, far, |arr|, |far|, out)
    ensures ListsAll(g, out)
  {
    assert arr[..|arr|] == arr && far[..|far|] == far;
    forall k | 0 <= k < |out|
      ensures out[k].orders != 0 && At(g, out[k].price) == Tally(out[k].shares, out[k].orders)
    {
      assert out[k] in out;
      assert InCells(g, out[k]) || InFar(g, out[k]);
      assert InFar(g, out[k]) ==> FarOk(g, out[k].price);
    }
    forall p | At(g, p).orders != 0 ensures exists k :: 0 <= k < |out| && out[k].price == p {
      var l := LevelAt(g, p);
      assert l in out;
      var k :| 0 <= k < |out| && out[k] == l;
      assert out[k].price == p;
    }
  }

  lemma LevelAt(g: Grid, p: u32) returns (l: Level)
    requires Sound(g) && At(g, p).orders != 0
    ensures l.price == p && (InCells(g, l) || InFar(g, l))
  {
    var c := CellOf(g.base, g.span, p);
    if c >= 0 {
      assert CellOk(g, c);
      l := g.cells[c];
      CellOrder(g.side, g.base, g.span, p, l.price);
    } else {
      assert FarOk(g, p);
      l := g.far[p];
    }
  }
}
