/**
 The order index: order reference to resting order, by open addressing and linear probing.

 `pos` records where each live reference sits. A table is sound when that record is exact
 (keys are unique) and no probe walk from a key's home slot to its own slot meets an empty
 slot. Nothing below depends on the hash beyond its being a function of the reference.
 */
module FlatHashMap {
  import opened Words
  import opened Wrappers

  const SIDE_BIT: u32 := 0x8000_0000
  const INITIAL: nat := 256

  /** Bit 31 of `shares` is the side; the low 31 bits are the quantity. */
  datatype Order = Order(shares: u32, price: u32) {
    function Qty(): u32 {
      if shares >= SIDE_BIT then shares - SIDE_BIT else shares
    }

    predicate Buy() {
      shares >= SIDE_BIT
    }
  }

  function Packed(buy: bool, qty: u32): u32
    requires qty < SIDE_BIT
  {
    if buy then qty + SIDE_BIT else qty
  }

  /** `ref == 0` marks an empty slot. */
  datatype Slot = Slot(ref: u64, order: Order)

  const EMPTY: Slot := Slot(0, Order(0, 0))

  type Hash = u64 -> nat

  function Home(hash: Hash, ref: u64, n: nat): (h: nat)
    requires n > 0
    ensures h < n
  {
    hash(ref) % n
  }

  /** The slot after `i` on a ring of `n` slots. */
  function Next(i: nat, n: nat): (j: nat)
    requires i < n
    ensures j < n
  {
    if i + 1 == n then 0 else i + 1
  }

  /** Steps forward around a ring of `n` slots from `a` to `b`. */
  function Dist(a: nat, b: nat, n: nat): (d: nat)
    requires a < n && b < n
    ensures d < n
  {
    if a <= b then b - a else b - a + n
  }

  /** Slot `j` is passed by the probe walk that starts at `home` and ends at `i`. */
  predicate Before(home: nat, j: nat, i: nat, n: nat)
    requires home < n && j < n && i < n
  {
    Dist(home, j, n) < Dist(home, i, n)
  }

  /** The walk to slot `i` from the home of its key meets no empty slot. */
  ghost predicate Reachable(hash: Hash, slots: seq<Slot>, i: nat)
    requires i < |slots|
  {
    var home := Home(hash, slots[i].ref, |slots|);
    forall j {:trigger Before(home, j, i, |slots|)} | 0 <= j < |slots| ::
      Before(home, j, i, |slots|) ==> slots[j].ref != 0
  }

  predicate SameKey(slots: seq<Slot>, i: nat, k: nat)
    requires i < |slots| && k < |slots|
  {
    slots[i].ref == slots[k].ref
  }

  /** Slot `i` is reachable, and no slot but `i` (and perhaps `hole`) holds its key. */
  ghost predicate Filed(hash: Hash, slots: seq<Slot>, hole: nat, i: nat)
    requires i < |slots|
  {
    && Reachable(hash, slots, i)
    && forall k {:trigger SameKey(slots, i, k)} | 0 <= k < |slots| && k != hole :: SameKey(slots, i, k) ==> k == i
  }

  /**
   Keys are unique and reachable. The key in slot `hole` does not count, though a hole still
   looks occupied to a probe walk; there is no hole when `hole == |slots|`.
   */
  ghost predicate Sound(hash: Hash, slots: seq<Slot>, hole: nat) {
    && (hole < |slots| ==> slots[hole].ref != 0)
    && forall i {:trigger Filed(hash, slots, hole, i)} | 0 <= i < |slots| && i != hole ::
         slots[i].ref != 0 ==> Filed(hash, slots, hole, i)
  }

  /** The entries in the first `k` slots: the table as a plain map. */
  ghost function Entries(slots: seq<Slot>, k: nat): map<u64, Order>
    requires k <= |slots|
  {
    if k == 0 then map[]
    else if slots[k - 1].ref == 0 then Entries(slots, k - 1)
    else Entries(slots, k - 1)[slots[k - 1].ref := slots[k - 1].order]
  }

  /** Number of occupied slots among the first `k`. */
  ghost function Live(slots: seq<Slot>, k: nat): (c: nat)
    requires k <= |slots|
    ensures c <= k
  {
    if k == 0 then 0 else Live(slots, k - 1) + Digit(slots[k - 1].ref != 0)
  }

  // ---- entries and slots ----

  /** Every entry comes from a slot. */
  lemma {:induction false} EntryHasSlot(slots: seq<Slot>, k: nat, r: u64) returns (i: nat)
    requires k <= |slots| && r in Entries(slots, k)
    ensures i < k && slots[i] == Slot(r, Entries(slots, k)[r]) && r != 0
  {
    if slots[k - 1].ref == r != 0 {
      i := k - 1;
    } else {
      i := EntryHasSlot(slots, k - 1, r);
    }
  }

  /** Every occupied slot has an entry. */
  lemma {:induction false} SlotHasEntry(slots: seq<Slot>, k: nat, i: nat)
    requires i < k <= |slots| && slots[i].ref != 0
    ensures slots[i].ref in Entries(slots, k)
  {
    if i < k - 1 {
      SlotHasEntry(slots, k - 1, i);
    }
  }

  lemma {:induction false} SamePrefix(slots: seq<Slot>, t: seq<Slot>, k: nat)
    requires k <= |slots| && k <= |t| && forall i | 0 <= i < k :: slots[i] == t[i]
    ensures Entries(slots, k) == Entries(t, k) && Live(slots, k) == Live(t, k)
  {
    if k > 0 {
      SamePrefix(slots, t, k - 1);
    }
  }

  /** Writing a new key to an empty slot adds its entry. */
  lemma {:induction false} WriteAdds(slots: seq<Slot>, i: nat, s: Slot, k: nat)
    requires i < k <= |slots| && slots[i].ref == 0 && s.ref != 0
    requires forall p | 0 <= p < k :: slots[p].ref != s.ref
    ensures s.ref !in Entries(slots, k)
    ensures Entries(slots[i := s], k) == Entries(slots, k)[s.ref := s.order]
    ensures Live(slots[i := s], k) == Live(slots, k) + 1
  {
    if i == k - 1 {
      SamePrefix(slots, slots[i := s], k - 1);
      if s.ref in Entries(slots, k) {
        var p := EntryHasSlot(slots, k, s.ref);
      }
    } else {
      WriteAdds(slots, i, s, k - 1);
    }
  }

  /** Emptying a slot removes its entry, when no other slot holds its key. */
  lemma EmptyingRemoves(slots: seq<Slot>, i: nat)
    requires i < |slots| && slots[i].ref != 0
    requires forall p | 0 <= p < |slots| :: SameKey(slots, i, p) ==> p == i
    ensures var ref, n := slots[i].ref, |slots|;
      && ref in Entries(slots, n)
      && Entries(slots, n)[ref] == slots[i].order
      && Entries(slots[i := EMPTY], n) == Entries(slots, n) - {ref}
      && Live(slots[i := EMPTY], n) == Live(slots, n) - 1
  {
    var t, n := slots[i := EMPTY], |slots|;
    forall p | 0 <= p < n ensures t[p].ref != slots[i].ref {
      assert SameKey(slots, i, p) ==> p == i;
    }
    WriteAdds(t, i, slots[i], n);
    assert t[i := slots[i]] == slots;
  }

  /** Two slots that hold one key are the same slot. */
  lemma SlotOfKey(hash: Hash, slots: seq<Slot>, i: nat, k: nat)
    requires Sound(hash, slots, |slots|) && i < |slots| && k < |slots| && slots[i].ref == slots[k].ref != 0
    ensures i == k
  {
    assert Filed(hash, slots, |slots|, i) && SameKey(slots, i, k);
  }

  /** A table has as many entries as occupied slots. */
  lemma {:induction false} EntryCount(hash: Hash, slots: seq<Slot>, k: nat)
    requires Sound(hash, slots, |slots|) && k <= |slots|
    ensures |Entries(slots, k)| == Live(slots, k)
  {
    if k > 0 {
      EntryCount(hash, slots, k - 1);
      if slots[k - 1].ref != 0 && slots[k - 1].ref in Entries(slots, k - 1) {
        var i := EntryHasSlot(slots, k - 1, slots[k - 1].ref);
        SlotOfKey(hash, slots, k - 1, i);
      }
    }
  }

  lemma {:induction false} AllEmpty(slots: seq<Slot>, k: nat)
    requires k <= |slots| && forall i | 0 <= i < k :: slots[i].ref == 0
    ensures Entries(slots, k) == map[] && Live(slots, k) == 0
  {
    if k > 0 {
      AllEmpty(slots, k - 1);
    }
  }

  lemma {:induction false} LiveGrows(slots: seq<Slot>, k: nat, n: nat)
    requires k <= n <= |slots|
    ensures Live(slots, k) <= Live(slots, n)
  {
    if k < n {
      LiveGrows(slots, k, n - 1);
    }
  }

  lemma {:induction false} EmptySlotExists(slots: seq<Slot>, k: nat) returns (e: nat)
    requires k <= |slots| && Live(slots, k) < k
    ensures e < k && slots[e].ref == 0
  {
    if slots[k - 1].ref == 0 {
      e := k - 1;
    } else {
      e := EmptySlotExists(slots, k - 1);
    }
  }

  // ---- probe walks ----

  /** The walk for `ref` has come to slot `i`: no slot before it is empty or holds `ref`. */
  ghost predicate WalkedTo(hash: Hash, slots: seq<Slot>, ref: u64, i: nat) {
    && i < |slots|
    && var home := Home(hash, ref, |slots|);
       forall j {:trigger Before(home, j, i, |slots|)} | 0 <= j < |slots| ::
         Before(home, j, i, |slots|) ==> slots[j].ref != 0 && slots[j].ref != ref
  }

  lemma StepForward(a: nat, i: nat, e: nat, n: nat)
    requires a < n && i < n && e < n && i != e
    requires Dist(a, i, n) <= Dist(a, e, n)
    ensures Dist(a, Next(i, n), n) == Dist(a, i, n) + 1 <= Dist(a, e, n)
    ensures Dist(Next(i, n), e, n) < Dist(i, e, n)
  {
  }

  lemma WalkStep(hash: Hash, slots: seq<Slot>, ref: u64, i: nat, e: nat)
    requires WalkedTo(hash, slots, ref, i) && e < |slots| && slots[e].ref == 0
    requires slots[i].ref != 0 && slots[i].ref != ref
    requires var home := Home(hash, ref, |slots|); Dist(home, i, |slots|) <= Dist(home, e, |slots|)
    ensures WalkedTo(hash, slots, ref, Next(i, |slots|))
    ensures var home := Home(hash, ref, |slots|);
      Dist(home, i, |slots|) < Dist(home, Next(i, |slots|), |slots|) <= Dist(home, e, |slots|)
  {
    var n, home := |slots|, Home(hash, ref, |slots|);
    StepForward(home, i, e, n);
    forall j | 0 <= j < n && Before(home, j, Next(i, n), n) ensures slots[j].ref != 0 && slots[j].ref != ref {
      assert j == i || Before(home, j, i, n);
    }
  }

  /** A walk that ends at `ref` or at an empty slot decides membership. */
  lemma WalkDecides(hash: Hash, slots: seq<Slot>, ref: u64, i: nat)
    requires Sound(hash, slots, |slots|) && WalkedTo(hash, slots, ref, i)
    ensures slots[i].ref == 0 && ref != 0 ==> forall p | 0 <= p < |slots| :: slots[p].ref != ref
    ensures slots[i].ref == 0 ==> ref !in Entries(slots, |slots|)
    ensures slots[i].ref == ref != 0 ==>
      ref in Entries(slots, |slots|) && slots[i].order == Entries(slots, |slots|)[ref]
  {
    var n, home := |slots|, Home(hash, ref, |slots|);
    if slots[i].ref == 0 {
      forall p | 0 <= p < n && ref != 0 ensures slots[p].ref != ref {
        assert slots[p].ref == ref ==> Filed(hash, slots, n, p);
        assert i == p || Before(home, i, p, n) || Before(home, p, i, n);
      }
      if ref in Entries(slots, n) {
        var p := EntryHasSlot(slots, n, ref);
      }
    } else if slots[i].ref == ref {
      assert Filed(hash, slots, n, i);
      EmptyingRemoves(slots, i);
    }
  }

  /** Storing a new key where its walk found an empty slot keeps the table sound. */
  lemma StoreSound(hash: Hash, slots: seq<Slot>, i: nat, s: Slot)
    requires Sound(hash, slots, |slots|)
    requires s.ref != 0 && WalkedTo(hash, slots, s.ref, i) && slots[i].ref == 0
    ensures var n := |slots|;
      && Sound(hash, slots[i := s], n)
      && s.ref !in Entries(slots, n)
      && Entries(slots[i := s], n) == Entries(slots, n)[s.ref := s.order]
      && Live(slots[i := s], n) == Live(slots, n) + 1
  {
    var t, n := slots[i := s], |slots|;
    WalkDecides(hash, slots, s.ref, i);
    WriteAdds(slots, i, s, n);
    forall k | 0 <= k < n && t[k].ref != 0 ensures Filed(hash, t, n, k) {
      if k == i {
        var home := Home(hash, s.ref, n);
        forall j | 0 <= j < n && Before(home, j, i, n) ensures t[j].ref != 0 {
        }
      } else {
        FiledStays(hash, slots, n, k, t, n);
      }
    }
  }

  /** A key stays filed when every other changed slot is occupied and holds a different key. */
  lemma FiledStays(hash: Hash, slots: seq<Slot>, hole: nat, k: nat, t: seq<Slot>, hole': nat)
    requires k < |slots| == |t| && t[k].ref == slots[k].ref
    requires Filed(hash, slots, hole, k)
    requires forall j | 0 <= j < |t| :: slots[j].ref != 0 ==> t[j].ref != 0
    requires forall j | 0 <= j < |t| && j != hole' && j != k ::
      t[j].ref != t[k].ref || (j != hole && t[j].ref == slots[j].ref)
    ensures Filed(hash, t, hole', k)
  {
    var home := Home(hash, slots[k].ref, |t|);
    forall j | 0 <= j < |t| && Before(home, j, k, |t|) ensures t[j].ref != 0 {
      assert slots[j].ref != 0;
    }
    forall j | 0 <= j < |t| && j != hole' && SameKey(t, k, j) ensures j == k {
      assert j != k ==> SameKey(slots, k, j);
    }
  }

  /** Changing the order in a live slot changes that one entry. */
  lemma RelabelSound(hash: Hash, slots: seq<Slot>, i: nat, s: Slot)
    requires Sound(hash, slots, |slots|)
    requires i < |slots| && slots[i].ref == s.ref != 0
    ensures var n := |slots|;
      && Sound(hash, slots[i := s], n)
      && s.ref in Entries(slots, n)
      && Entries(slots[i := s], n) == Entries(slots, n)[s.ref := s.order]
      && Live(slots[i := s], n) == Live(slots, n)
  {
    var t, n := slots[i := s], |slots|;
    assert Filed(hash, slots, n, i);
    forall k | 0 <= k < n && t[k].ref != 0 ensures Filed(hash, t, n, k) {
      FiledStays(hash, slots, n, k, t, n);
    }
    assert Filed(hash, t, n, i);
    EmptyingRemoves(slots, i);
    EmptyingRemoves(t, i);
    assert t[i := EMPTY] == slots[i := EMPTY];
    var m, m' := Entries(slots, n), Entries(t, n);
    assert m' == (m' - {s.ref})[s.ref := s.order];
    assert m[s.ref := s.order] == (m - {s.ref})[s.ref := s.order];
  }

  // ---- closing a hole ----

  /** The key in slot `p` has its home after the hole, no later than `p`. */
  ghost predicate AfterHole(hash: Hash, slots: seq<Slot>, hole: nat, p: nat)
    requires hole < |slots| && p < |slots|
  {
    slots[p].ref != 0 && 0 < Dist(hole, Home(hash, slots[p].ref, |slots|), |slots|) <= Dist(hole, p, |slots|)
  }

  /** Every slot from `hole` round to `j` is occupied by such a key. */
  ghost predicate Settled(hash: Hash, slots: seq<Slot>, hole: nat, j: nat)
    requires hole < |slots| && j < |slots|
  {
    forall p {:trigger AfterHole(hash, slots, hole, p)} | 0 <= p < |slots| ::
      0 < Dist(hole, p, |slots|) <= Dist(hole, j, |slots|) ==> AfterHole(hash, slots, hole, p)
  }

  /**
   The state of the hole-closing loop after it has looked as far as slot `j`: blanking the hole
   would leave the entries `left` in `live` slots.
   */
  ghost predicate Closing(hash: Hash, slots: seq<Slot>, left: map<u64, Order>, live: nat, hole: nat, j: nat) {
    && hole < |slots| && j < |slots|
    && Sound(hash, slots, hole)
    && Settled(hash, slots, hole, j)
    && Entries(slots[hole := EMPTY], |slots|) == left
    && Live(slots[hole := EMPTY], |slots|) == live
  }

  lemma CloseStart(hash: Hash, slots: seq<Slot>, hole: nat)
    requires Sound(hash, slots, |slots|)
    requires hole < |slots| && slots[hole].ref != 0
    ensures Live(slots, |slots|) > 0
    ensures Closing(hash, slots, Entries(slots, |slots|) - {slots[hole].ref}, Live(slots, |slots|) - 1, hole, hole)
  {
    assert Filed(hash, slots, |slots|, hole);
    EmptyingRemoves(slots, hole);
    forall k | 0 <= k < |slots| && k != hole && slots[k].ref != 0 ensures Filed(hash, slots, hole, k) {
      FiledStays(hash, slots, |slots|, k, slots, hole);
    }
  }

  /** The key at `next` has its home after the hole, so it stays. */
  lemma CloseSkip(hash: Hash, slots: seq<Slot>, left: map<u64, Order>, live: nat, hole: nat, j: nat, next: nat)
    requires Closing(hash, slots, left, live, hole, j)
    requires next < |slots| && Dist(hole, next, |slots|) == Dist(hole, j, |slots|) + 1
    requires AfterHole(hash, slots, hole, next)
    ensures Closing(hash, slots, left, live, hole, next)
  {
    var n := |slots|;
    forall p | 0 <= p < n && 0 < Dist(hole, p, n) <= Dist(hole, next, n) ensures AfterHole(hash, slots, hole, p) {
      assert Dist(hole, p, n) == Dist(hole, next, n) ==> p == next;
    }
  }

  /** The key at `next` fills the hole and leaves a new one behind. */
  lemma CloseMove(hash: Hash, slots: seq<Slot>, left: map<u64, Order>, live: nat, hole: nat, j: nat, next: nat)
    requires Closing(hash, slots, left, live, hole, j)
    requires next < |slots| && next != hole && slots[next].ref != 0
    requires !AfterHole(hash, slots, hole, next)
    ensures Closing(hash, slots[hole := slots[next]], left, live, next, next)
  {
    MoveSound(hash, slots, hole, next);
    assert Filed(hash, slots, hole, next);
    MoveEntries(slots, hole, next);
  }

  lemma MoveEntries(slots: seq<Slot>, hole: nat, next: nat)
    requires hole < |slots| && next < |slots| && next != hole && slots[next].ref != 0
    requires forall p | 0 <= p < |slots| && p != hole :: SameKey(slots, next, p) ==> p == next
    ensures var n, t := |slots|, slots[hole := slots[next]];
      && Entries(t[next := EMPTY], n) == Entries(slots[hole := EMPTY], n)
      && Live(t[next := EMPTY], n) == Live(slots[hole := EMPTY], n)
  {
    var n, s := |slots|, slots[next];
    var blank := slots[hole := EMPTY];
    forall p | 0 <= p < n ensures SameKey(blank, next, p) ==> p == next {
      assert p != hole ==> (SameKey(slots, next, p) ==> p == next);
    }
    EmptyingRemoves(blank, next);
    var bare := blank[next := EMPTY];
    forall p | 0 <= p < n ensures bare[p].ref != s.ref {
      assert p != hole ==> (SameKey(slots, next, p) ==> p == next);
    }
    WriteAdds(bare, hole, s, n);
    assert bare[hole := s] == slots[hole := s][next := EMPTY];
  }

  lemma MoveSound(hash: Hash, slots: seq<Slot>, hole: nat, next: nat)
    requires hole < |slots| && next < |slots| && next != hole && slots[next].ref != 0
    requires Sound(hash, slots, hole) && !AfterHole(hash, slots, hole, next)
    ensures Sound(hash, slots[hole := slots[next]], next)
  {
    var n, s := |slots|, slots[next];
    var t := slots[hole := s];
    assert Filed(hash, slots, hole, next);
    forall k | 0 <= k < n && k != next && t[k].ref != 0 ensures Filed(hash, t, next, k) {
      if k == hole {
        MovedReachable(hash, slots, hole, next);
        forall p | 0 <= p < n && p != next && p != hole ensures !SameKey(t, hole, p) {
          assert !SameKey(slots, next, p);
        }
      } else {
        assert Filed(hash, slots, hole, k);
        assert !SameKey(slots, next, k);
        FiledStays(hash, slots, hole, k, t, next);
      }
    }
  }

  lemma MovedReachable(hash: Hash, slots: seq<Slot>, hole: nat, next: nat)
    requires hole < |slots| && next < |slots| && next != hole && slots[next].ref != 0 && slots[hole].ref != 0
    requires Reachable(hash, slots, next) && !AfterHole(hash, slots, hole, next)
    ensures Reachable(hash, slots[hole := slots[next]], hole)
  {
    var t, n := slots[hole := slots[next]], |slots|;
    var home := Home(hash, slots[next].ref, n);
    forall k | 0 <= k < n && Before(home, k, hole, n) ensures t[k].ref != 0 {
      assert Before(home, k, next, n);
    }
  }

  /** If the walk from `home` to `i` passes `hole` but not `e`, then going round from `hole`: i, e, home. */
  lemma RingOrder(home: nat, hole: nat, i: nat, e: nat, n: nat)
    requires home < n && hole < n && i < n && e < n && i != e && hole != e
    requires Before(home, hole, i, n) && !Before(home, e, i, n)
    ensures 0 < Dist(hole, i, n) < Dist(hole, e, n)
    ensures Dist(hole, home, n) == 0 || Dist(hole, home, n) > Dist(hole, i, n)
  {
  }

  /** With an empty slot right after the settled stretch, no walk to a live key passes the hole. */
  lemma NoWalkOverHole(hash: Hash, slots: seq<Slot>, hole: nat, j: nat, e: nat, i: nat)
    requires hole < |slots| && j < |slots| && e < |slots| && i < |slots|
    requires slots[e].ref == 0 && Dist(hole, e, |slots|) == Dist(hole, j, |slots|) + 1
    requires Settled(hash, slots, hole, j)
    requires i != hole && slots[i].ref != 0 && Reachable(hash, slots, i)
    ensures !Before(Home(hash, slots[i].ref, |slots|), hole, i, |slots|)
  {
    var n := |slots|;
    var home := Home(hash, slots[i].ref, n);
    assert !Before(home, e, i, n);
    if Before(home, hole, i, n) {
      RingOrder(home, hole, i, e, n);
    }
    assert AfterHole(hash, slots, hole, i) ==> !Before(home, hole, i, n);
  }

  lemma CloseDone(hash: Hash, slots: seq<Slot>, left: map<u64, Order>, live: nat, hole: nat, j: nat, e: nat)
    requires Closing(hash, slots, left, live, hole, j)
    requires e < |slots| && slots[e].ref == 0 && Dist(hole, e, |slots|) == Dist(hole, j, |slots|) + 1
    ensures Sound(hash, slots[hole := EMPTY], |slots|)
  {
    var t, n := slots[hole := EMPTY], |slots|;
    forall i | 0 <= i < n && t[i].ref != 0 ensures Filed(hash, t, n, i) {
      assert Filed(hash, slots, hole, i);
      NoWalkOverHole(hash, slots, hole, j, e, i);
      var home := Home(hash, slots[i].ref, n);
      forall k | 0 <= k < n && Before(home, k, i, n) ensures t[k].ref != 0 {
      }
      forall k | 0 <= k < n && SameKey(t, i, k) ensures k == i {
        assert k != hole ==> SameKey(slots, i, k);
      }
    }
  }

  /** One round of the hole-closing loop, which has reached `j` and looks at `next`. */
  lemma CloseRound(hash: Hash, slots: seq<Slot>, left: map<u64, Order>, live: nat, hole: nat, j: nat, next: nat, e: nat)
    requires Closing(hash, slots, left, live, hole, j)
    requires e < |slots| && slots[e].ref == 0 && Dist(hole, j, |slots|) < Dist(hole, e, |slots|)
    requires next == Next(j, |slots|)
    ensures Dist(next, e, |slots|) < Dist(j, e, |slots|)
    ensures slots[next].ref == 0 ==> Sound(hash, slots[hole := EMPTY], |slots|)
    ensures AfterHole(hash, slots, hole, next) ==>
      Closing(hash, slots, left, live, hole, next) && Dist(hole, next, |slots|) < Dist(hole, e, |slots|)
    ensures slots[next].ref != 0 && !AfterHole(hash, slots, hole, next) ==>
      Closing(hash, slots[hole := slots[next]], left, live, next, next) && next != e && next != hole
  {
    var n := |slots|;
    StepForward(hole, j, e, n);
    if slots[next].ref == 0 {
      CloseDone(hash, slots, left, live, hole, j, next);
    } else {
      if AfterHole(hash, slots, hole, next) {
        CloseSkip(hash, slots, left, live, hole, j, next);
      } else {
        CloseMove(hash, slots, left, live, hole, j, next);
      }
    }
  }

  // ---- growth ----

  /** Capacity after `k` doublings. */
  function Capacity(k: nat): (c: nat)
    ensures c >= INITIAL && c % 4 == 0
  {
    if k == 0 then INITIAL else 2 * Capacity(k - 1)
  }

  /** The most doublings, and a number of entries that never asks for more: positions stay below 2^64. */
  const MAX_REHASHES: nat := 55
  const MAX_ENTRIES: nat := 0x4000_0000_0000_0000

  lemma {:induction false} CapacityIsPower(k: nat)
    ensures Capacity(k) == Pow2(k + 8)
  {
    if k == 0 {
      assert Pow2(4) == 16;
    } else {
      CapacityIsPower(k - 1);
    }
  }

  lemma LargestCapacity()
    ensures 2 * Capacity(MAX_REHASHES) == TWO_64
  {
    CapacityIsPower(MAX_REHASHES);
    Pow2Of64();
  }

  lemma {:induction false} CapacityGrows(k: nat, m: nat)
    requires k <= m
    ensures Capacity(k) <= Capacity(m)
  {
    if k < m {
      CapacityGrows(k, m - 1);
    }
  }

  /** The next key to be placed again is not in the new table yet. */
  lemma NotYetMoved(hash: Hash, former: seq<Slot>, k: nat, slots: seq<Slot>)
    requires Sound(hash, former, |former|) && k < |former| && former[k].ref != 0
    requires Entries(slots, |slots|) == Entries(former, k)
    ensures forall p | 0 <= p < |slots| :: slots[p].ref != former[k].ref
  {
    forall p | 0 <= p < |slots| ensures slots[p].ref != former[k].ref {
      if slots[p].ref == former[k].ref {
        SlotHasEntry(slots, |slots|, p);
        var i := EntryHasSlot(former, k, former[k].ref);
        SlotOfKey(hash, former, k, i);
      }
    }
  }

  class OrderIndex {
    const hash: Hash
    var slots: seq<Slot>
    var mask: nat
    var size: nat
    var growAt: nat
    var rehashes: nat

    ghost predicate Valid()
      reads this
    {
      && Sized()
      && size <= growAt
      && size == Live(slots, |slots|)
      && Sound(hash, slots, |slots|)
    }

    /** The capacity is zero, or 256 doubled `rehashes` times, and a quarter of it always stays free. */
    ghost predicate Sized()
      reads this
    {
      if slots == [] then mask == 0 && growAt == 0 && rehashes == 0
      else Ring() && growAt == |slots| - |slots| / 4
    }

    /** The slots form a ring whose positions the mask cuts out of a 64-bit word. */
    ghost predicate Ring()
      reads this
    {
      slots != [] && rehashes <= MAX_REHASHES && |slots| == Capacity(rehashes) && mask == |slots| - 1
    }

    lemma SlotsFit()
      requires Ring()
      ensures |slots| == Pow2(rehashes + 8) && |slots| < TWO_64
    {
      CapacityIsPower(rehashes);
      CapacityGrows(rehashes, MAX_REHASHES);
      LargestCapacity();
    }

    /** The table as a plain map. */
    ghost function Contents(): map<u64, Order>
      reads this
    {
      Entries(slots, |slots|)
    }

    constructor (hash: Hash)
      ensures Valid() && Contents() == map[] && this.hash == hash
    {
      this.hash := hash;
      slots := [];
      mask := 0;
      size := 0;
      growAt := 0;
      rehashes := 0;
    }

    /** The probe walk of `insert`, `find` and `erase`: it stops at `ref` or at the first empty slot. */
    method Probe(ref: u64) returns (i: nat)
      requires Ring() && Live(slots, |slots|) < |slots|
      ensures WalkedTo(hash, slots, ref, i)
      ensures slots[i].ref == 0 || slots[i].ref == ref
    {
      ghost var n := |slots|;
      ghost var e := EmptySlotExists(slots, n);
      SlotsFit();
      MaskIsModulo(hash(ref), rehashes + 8, n);
      i := And(hash(ref), mask);
      ghost var home := i;
      while slots[i].ref != 0
        invariant i < n
        invariant Dist(home, i, n) <= Dist(home, e, n)
        invariant WalkedTo(hash, slots, ref, i)
        decreases Dist(home, e, n) - Dist(home, i, n)
      {
        if slots[i].ref == ref {
          return;
        }
        WalkStep(hash, slots, ref, i, e);
        MaskedStep(i, rehashes + 8, n);
        i := And(i + 1, mask);
      }
    }

    /** A full table of fewer than `MAX_ENTRIES` entries has doublings left. */
    lemma MayGrow()
      requires Valid() && size + 1 > growAt && |Contents()| < MAX_ENTRIES
      ensures slots == [] || rehashes < MAX_REHASHES
    {
      EntryCount(hash, slots, |slots|);
      LargestCapacity();
    }

    method Insert(ref: u64, qty: u32, price: u32, buy: bool) returns (inserted: bool)
      requires Valid()
      requires qty < SIDE_BIT && |Contents()| < MAX_ENTRIES
      modifies this
      ensures Valid()
      ensures inserted == (ref != 0 && ref !in old(Contents()))
      ensures Contents() ==
        if inserted then old(Contents())[ref := Order(Packed(buy, qty), price)] else old(Contents())
      ensures |slots| ==
        if ref == 0 || old(size) + 1 <= old(|slots|) - old(|slots|) / 4 then old(|slots|)
        else if old(slots) == [] then 256 else 2 * old(|slots|)
    {
      if ref == 0 {
        return false;
      }
      if size + 1 > growAt {
        MayGrow();
        Grow();
      }
      var i := Probe(ref);
      WalkDecides(hash, slots, ref, i);
      if slots[i].ref != 0 {
        return false;
      }
      var s := Slot(ref, Order(Packed(buy, qty), price));
      StoreSound(hash, slots, i, s);
      slots := slots[i := s];
      size := size + 1;
      return true;
    }

    /** The slot that holds `ref`, standing for the pointer the source returns. */
    method Find(ref: u64) returns (slot: Option<nat>)
      requires Valid()
      ensures slot.Some? <==> ref in Contents()
      ensures slot.Some? ==> slot.value < |slots| && slots[slot.value] == Slot(ref, Contents()[ref]) && ref != 0
    {
      if size == 0 {
        EntryCount(hash, slots, |slots|);
        return None;
      }
      var i := Probe(ref);
      WalkDecides(hash, slots, ref, i);
      return if slots[i].ref != 0 then Some(i) else None;
    }

    /** A store of `shares` through the pointer that `Find` returned. */
    method SetShares(i: nat, shares: u32)
      requires Valid() && i < |slots| && slots[i].ref != 0
      modifies this`slots
      ensures Valid()
      ensures Contents() == old(Contents())[old(slots)[i].ref := Order(shares, old(slots)[i].order.price)]
    {
      var s := slots[i].(order := Order(shares, slots[i].order.price));
      RelabelSound(hash, slots, i, s);
      slots := slots[i := s];
    }

    method Erase(ref: u64) returns (erased: bool)
      requires Valid()
      modifies this
      ensures Valid()
      ensures erased == (ref in old(Contents()))
      ensures Contents() == old(Contents()) - {ref}
    {
      if size == 0 {
        EntryCount(hash, slots, |slots|);
        return false;
      }
      var i := Probe(ref);
      WalkDecides(hash, slots, ref, i);
      if slots[i].ref == 0 {
        return false;
      }
      BackwardShift(i);
      size := size - 1;
      return true;
    }

    /** "home in (hole, j]" on the ring: two masked differences compared, without branches on the wrap. */
    method HomeAfterHole(hole: nat, j: nat) returns (stays: bool)
      requires Ring() && hole < |slots| && j < |slots| && slots[j].ref != 0
      ensures stays == AfterHole(hash, slots, hole, j)
    {
      ghost var k := rehashes + 8;
      SlotsFit();
      MaskIsModulo(hash(slots[j].ref), k, |slots|);
      var home := And(hash(slots[j].ref), mask);
      MaskedDifference(hole, j, k, |slots|);
      MaskedDifference(hole, home, k, |slots|);
      var distJ, distHome := And(Sub64(j, hole), mask), And(Sub64(home, hole), mask);
      stays := distHome <= distJ && distHome != 0;
    }

    /** Closes the hole at `start` so that no probe walk is broken. */
    method BackwardShift(start: nat)
      requires Valid() && start < |slots| && slots[start].ref != 0
      modifies this`slots
      ensures |slots| == old(|slots|) && size == Live(slots, |slots|) + 1
      ensures Sound(hash, slots, |slots|)
      ensures Contents() == old(Contents()) - {old(slots)[start].ref}
    {
      ghost var n := |slots|;
      ghost var left: map<u64, Order> := Contents() - {slots[start].ref};
      ghost var e := EmptySlotExists(slots, n);
      CloseStart(hash, slots, start);
      SlotsFit();
      var hole: nat, j: nat := start, start;
      while true
        invariant |slots| == n && 0 <= j < n && slots[e].ref == 0
        invariant Closing(hash, slots, left, size - 1, hole, j)
        invariant Dist(hole, j, n) < Dist(hole, e, n)
        decreases Dist(j, e, n)
      {
        CloseRound(hash, slots, left, size - 1, hole, j, Next(j, n), e);
        MaskedStep(j, rehashes + 8, n);
        j := And(j + 1, mask);
        if slots[j].ref == 0 {
          break;
        }
        var stays := HomeAfterHole(hole, j);
        if stays {
          continue;
        }
        slots := slots[hole := slots[j]];
        hole := j;
      }
      slots := slots[hole := EMPTY];
    }

    /** The walk of the rebuild loop: no key equals `ref`, so it looks for the first empty slot only. */
    method FirstEmpty(ref: u64) returns (i: nat)
      requires Ring() && Live(slots, |slots|) < |slots|
      requires forall k | 0 <= k < |slots| :: slots[k].ref != ref
      ensures WalkedTo(hash, slots, ref, i) && slots[i].ref == 0
    {
      ghost var n := |slots|;
      ghost var e := EmptySlotExists(slots, n);
      SlotsFit();
      MaskIsModulo(hash(ref), rehashes + 8, n);
      i := And(hash(ref), mask);
      ghost var home := i;
      while slots[i].ref != 0
        invariant i < n
        invariant Dist(home, i, n) <= Dist(home, e, n)
        invariant WalkedTo(hash, slots, ref, i)
        decreases Dist(home, e, n) - Dist(home, i, n)
      {
        WalkStep(hash, slots, ref, i, e);
        MaskedStep(i, rehashes + 8, n);
        i := And(i + 1, mask);
      }
    }

    /** One key of the rebuild: it goes into the first empty slot from its home on. */
    method PlaceAgain(s: Slot)
      requires Ring() && Sound(hash, slots, |slots|) && size == Live(slots, |slots|) < |slots|
      requires s.ref != 0 && forall p | 0 <= p < |slots| :: slots[p].ref != s.ref
      modifies this`slots, this`size
      ensures |slots| == |old(slots)| && Sound(hash, slots, |slots|)
      ensures Contents() == old(Contents())[s.ref := s.order]
      ensures size == Live(slots, |slots|) == old(size) + 1
    {
      var i := FirstEmpty(s.ref);
      StoreSound(hash, slots, i, s);
      slots := slots[i := s];
      size := size + 1;
    }

    /** Doubling rebuild: every key is placed again because the mask changed. */
    method Grow()
      requires Valid() && (slots == [] || rehashes < MAX_REHASHES)
      modifies this
      ensures Valid() && Contents() == old(Contents())
      ensures |slots| == if old(slots) == [] then INITIAL else 2 * old(|slots|)
      ensures size == old(size) && size + 1 <= growAt
    {
      var next := if slots == [] then INITIAL else 2 * |slots|;
      var former := slots;
      slots := seq(next, _ => EMPTY);
      mask := next - 1;
      growAt := next - next / 4;
      size := 0;
      if former != [] {
        rehashes := rehashes + 1;
      }
      AllEmpty(slots, next);
      for k := 0 to |former|
        invariant |slots| == next && mask == next - 1 && growAt == next - next / 4
        invariant Ring()
        invariant Sound(hash, slots, next)
        invariant Entries(slots, next) == Entries(former, k)
        invariant size == Live(slots, next) == Live(former, k)
      {
        if former[k].ref == 0 {
          continue;
        }
        NotYetMoved(hash, former, k, slots);
        PlaceAgain(former[k]);
      }
    }
  }
}
