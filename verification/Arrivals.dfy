/**
 A sender's packets over a network that loses, repeats and reorders them as it likes: the receiver
 hands over exactly the packets that come later than every packet before them.
 */
module Arrivals {
  import opened Words
  import opened Bytes
  import opened Mold
  import opened Packing
  import opened DecoderSpec
  import opened Lossy
  import opened Replaying

  /** Which packet arrives when: `order[k]` is the index of the packet that arrives as number `k`. */
  type Order = seq<nat>

  ghost predicate Names(order: Order, n: nat) {
    forall k {:trigger order[k]} | 0 <= k < |order| :: order[k] < n
  }

  /** One past the latest packet among the first `k` arrivals; 0 if there is none. */
  function Top(order: Order, k: nat): nat
    requires k <= |order|
  {
    if k == 0 then 0
    else if order[k - 1] >= Top(order, k - 1) then order[k - 1] + 1
    else Top(order, k - 1)
  }

  /** The arrival comes later, in the sender's order, than every arrival before it. */
  predicate IsRecord(order: Order, k: nat)
    requires k < |order|
  {
    order[k] >= Top(order, k)
  }

  /** The messages of the records among the first `k` arrivals. */
  function RecordMessages(gs: seq<seq<Bytes>>, order: Order, k: nat): seq<Bytes>
    requires Names(order, |gs|) && k <= |order|
  {
    if k == 0 then []
    else RecordMessages(gs, order, k - 1) + if IsRecord(order, k - 1) then gs[order[k - 1]] else []
  }

  /** The packets stepped over before each record, as gaps; nothing counts as stepped over before the first arrival. */
  ghost function SteppedOver(gs: seq<seq<Bytes>>, order: Order, k: nat): seq<Gap>
    requires AllShippable(gs) && Names(order, |gs|) && k <= |order|
  {
    if k == 0 then []
    else
      var t, i := Top(order, k - 1), order[k - 1];
      SteppedOver(gs, order, k - 1) + RunBefore(gs, t, i)
  }

  function Copies(order: Order, k: nat): nat
    requires k <= |order|
  {
    if k == 0 then 0 else Copies(order, k - 1) + Digit(!IsRecord(order, k - 1))
  }

  /** The packets as they arrive. */
  ghost function Arrived(session: Session, gs: seq<seq<Bytes>>, order: Order, k: nat): seq<Bytes>
    requires AllShippable(gs) && Names(order, |gs|) && k <= |order|
  {
    if k == 0 then []
    else
      FirstGrows(gs, order[k - 1], |gs|);
      assert Shippable(gs[order[k - 1]]);
      Arrived(session, gs, order, k - 1) + [Packet(session, gs, order[k - 1])]
  }

  lemma {:induction false} TopBound(order: Order, k: nat, n: nat)
    requires Names(order, n) && k <= |order|
    ensures Top(order, k) <= n
  {
    if k > 0 {
      TopBound(order, k - 1, n);
      assert order[k - 1] < n;
    }
  }

  /** A packet whose number is behind is counted and changes nothing else. */
  lemma ReceiveCopy(s: State, session: Session, f: u64, g: seq<Bytes>)
    requires Shippable(g) && s.started && s.session == session && f < s.expected
    ensures var p := PacketOf(session, f, g);
      Handed(s, p) == [] && StepLost(s, p) == [] && Step(s, p) == s.(duplicates := s.duplicates + 1)
  {
    PacketRoundTrip(session, f, g);
  }

  /**
   A packet that begins before the expected number is ignored whole, even when it ends after it. Whatever part of
   it was new is reported lost with the next packet, or with the marker, unless that begins with the new part.
   */
  lemma OverlapIsLost(s: State, session: Session, f: u64, g: seq<Bytes>, next: u64, h: seq<Bytes>)
    requires Shippable(g) && Shippable(h) && next + |h| < TWO_64
    requires s.started && s.session == session && f < s.expected < f + |g| && s.expected <= next
    ensures var p, t := PacketOf(session, f, g), Step(s, PacketOf(session, f, g));
      && Handed(s, p) == [] && StepLost(s, p) == []
      && Handed(t, PacketOf(session, next, h)) == h
      && StepLost(t, PacketOf(session, next, h)) == StepLost(t, MarkerPacket(session, next))
      && StepLost(t, MarkerPacket(session, next)) ==
           if next > s.expected then [Gap(s.expected, next - s.expected)] else []
  {
    var t := Step(s, PacketOf(session, f, g));
    ReceiveCopy(s, session, f, g);
    ReceivePacket(t, session, next, h);
    ReceiveMarker(t, session, next);
  }

  /** What the first `k` arrivals give a receiver. */
  ghost function Due(start: State, session: Session, gs: seq<seq<Bytes>>, order: Order, k: nat): Reception
    requires AllShippable(gs) && Names(order, |gs|) && k <= |order| && Top(order, k) <= |gs|
  {
    Reception(RecordMessages(gs, order, k), SteppedOver(gs, order, k), start.duplicates + Copies(order, k),
              PlaceAfter(session, gs, Top(order, k)))
  }

  /** For any arrivals: exactly the records are delivered, and exactly the packets they step over are reported lost. */
  lemma AnyArrivals(start: State, session: Session, gs: seq<seq<Bytes>>, order: Order, k: nat)
    requires AllShippable(gs) && Names(order, |gs|) && k <= |order| && !start.started
    ensures Top(order, k) <= |gs|
    ensures ReceptionOf(start, Arrived(session, gs, order, k)) == Due(start, session, gs, order, k)
  {
    TopBound(order, k, |gs|);
    var ps := ArrivalsGive(start, session, gs, order, k);
  }

  lemma {:induction false} ArrivalsGive(start: State, session: Session, gs: seq<seq<Bytes>>, order: Order, k: nat)
    returns (ps: seq<Bytes>)
    requires AllShippable(gs) && Names(order, |gs|) && k <= |order| && Top(order, k) <= |gs| && !start.started
    ensures ps == Arrived(session, gs, order, k)
    ensures ReceptionOf(start, ps) == Due(start, session, gs, order, k)
  {
    if k == 0 {
      ps := [];
    } else {
      TopBound(order, k - 1, |gs|);
      ps := ArrivalsGive(start, session, gs, order, k - 1);
      ArrivalFits(gs, order, k);
      ArriveNext(start, session, gs, order, k, ps);
      ps := ps + [Packet(session, gs, order[k - 1])];
    }
  }

  lemma ArrivalFits(gs: seq<seq<Bytes>>, order: Order, k: nat)
    requires AllShippable(gs) && Names(order, |gs|) && 0 < k <= |order|
    ensures FirstOf(gs, order[k - 1]) < TWO_64 && |gs[order[k - 1]]| < 0xFFFF
  {
    FirstGrows(gs, order[k - 1], |gs|);
    assert Shippable(gs[order[k - 1]]);
  }

  lemma ArriveNext(start: State, session: Session, gs: seq<seq<Bytes>>, order: Order, k: nat, ps: seq<Bytes>)
    requires AllShippable(gs) && Names(order, |gs|) && 0 < k <= |order|
    requires Top(order, k) <= |gs| && Top(order, k - 1) <= |gs|
    requires FirstOf(gs, order[k - 1]) < TWO_64 && |gs[order[k - 1]]| < 0xFFFF
    requires ReceptionOf(start, ps) == Due(start, session, gs, order, k - 1)
    ensures ReceptionOf(start, ps + [Packet(session, gs, order[k - 1])]) == Due(start, session, gs, order, k)
  {
    var i, t := order[k - 1], Top(order, k - 1);
    DueNext(start, session, gs, order, k);
    if i >= t {
      PacketNext(start, session, gs, t, i + 1, ps);
    } else {
      CopyNext(start, session, gs, t, i, ps);
    }
  }

  lemma DueNext(start: State, session: Session, gs: seq<seq<Bytes>>, order: Order, k: nat)
    requires AllShippable(gs) && Names(order, |gs|) && 0 < k <= |order|
    requires Top(order, k) <= |gs| && Top(order, k - 1) <= |gs|
    ensures var r, i, t := Due(start, session, gs, order, k - 1), order[k - 1], Top(order, k - 1);
      Due(start, session, gs, order, k) ==
        if i >= t then Reception(r.messages + gs[i], r.gaps + RunBefore(gs, t, i), r.duplicates,
                                 PlaceAfter(session, gs, i + 1))
        else r.(duplicates := r.duplicates + 1)
  {
    var r := Due(start, session, gs, order, k - 1);
    assert r.messages + [] == r.messages && r.gaps + [] == r.gaps;
  }

  /** What a copy of packet `i` adds at a receiver that a later packet left: one duplicate. */
  lemma CopyNext(start: State, session: Session, gs: seq<seq<Bytes>>, t: nat, i: nat, ps: seq<Bytes>)
    requires AllShippable(gs) && i < t <= |gs| && PlaceOf(Run(start, ps)) == PlaceAfter(session, gs, t)
    requires FirstOf(gs, i) < TWO_64 && |gs[i]| < 0xFFFF
    ensures ReceptionOf(start, ps + [Packet(session, gs, i)])
      == ReceptionOf(start, ps).(duplicates := ReceptionOf(start, ps).duplicates + 1)
  {
    assert Shippable(gs[i]);
    FirstGrows(gs, i, t);
    RunSnoc(start, ps, Packet(session, gs, i));
    ReceiveCopy(Run(start, ps), session, FirstOf(gs, i), gs[i]);
    assert HandedBy(start, ps) + [] == HandedBy(start, ps) && LostBy(start, ps) + [] == LostBy(start, ps);
  }

  // ---- the end of the session ----

  /** The packets stepped over before each record, and those after the last. */
  ghost function AllSteppedOver(gs: seq<seq<Bytes>>, order: Order): seq<Gap>
    requires AllShippable(gs) && Names(order, |gs|)
  {
    TopBound(order, |order|, |gs|);
    var t := Top(order, |order|);
    SteppedOver(gs, order, |order|) + RunBefore(gs, t, |gs|)
  }

  /** Any arrivals, and then the marker: what was stepped over at the end is reported lost too. */
  lemma AnyArrivalsEnded(start: State, session: Session, gs: seq<seq<Bytes>>, order: Order)
    requires AllShippable(gs) && Names(order, |gs|) && !start.started
    ensures var ps := Arrived(session, gs, order, |order|) + [MarkerPacket(session, FirstOf(gs, |gs|))];
      && HandedBy(start, ps) == RecordMessages(gs, order, |order|)
      && LostBy(start, ps) == AllSteppedOver(gs, order)
  {
    var n := |gs|;
    var ps := Arrived(session, gs, order, |order|);
    AnyArrivals(start, session, gs, order, |order|);
    GapIsRun(Run(start, ps), session, gs, Top(order, |order|), n);
    ReceiveLast(start, ps, session, FirstOf(gs, n));
  }

  // ---- when everything is delivered ----

  /** Among the first `n` arrivals every packet comes before any later one does; copies may come at any time after. */
  ghost predicate NoHole(order: Order, n: nat)
    requires n <= |order|
  {
    forall k {:trigger order[k]} | 0 <= k < n :: order[k] <= Top(order, k)
  }

  /** Up to the latest packet, everything has been delivered exactly when there is no hole. */
  lemma {:induction false} NoHoleExactly(gs: seq<seq<Bytes>>, order: Order, k: nat)
    requires AllShippable(gs) && Names(order, |gs|) && k <= |order|
    ensures Top(order, k) <= |gs|
    ensures if NoHole(order, k) then RecordMessages(gs, order, k) == Flat(gs, Top(order, k))
            else |RecordMessages(gs, order, k)| + 1 < FirstOf(gs, Top(order, k))
  {
    TopBound(order, k, |gs|);
    if k > 0 {
      NoHoleExactly(gs, order, k - 1);
      HoleStep(gs, order, k);
    }
  }

  lemma HoleStep(gs: seq<seq<Bytes>>, order: Order, k: nat)
    requires AllShippable(gs) && Names(order, |gs|) && 0 < k <= |order| && Top(order, k - 1) <= |gs|
    requires if NoHole(order, k - 1) then RecordMessages(gs, order, k - 1) == Flat(gs, Top(order, k - 1))
             else |RecordMessages(gs, order, k - 1)| + 1 < FirstOf(gs, Top(order, k - 1))
    ensures if NoHole(order, k) then RecordMessages(gs, order, k) == Flat(gs, Top(order, k))
            else |RecordMessages(gs, order, k)| + 1 < FirstOf(gs, Top(order, k))
  {
    var t, i, before := Top(order, k - 1), order[k - 1], RecordMessages(gs, order, k - 1);
    assert NoHole(order, k) == (NoHole(order, k - 1) && i <= t);
    FlatSize(gs, t);
    if i < t {
      assert RecordMessages(gs, order, k) == before + [] == before;
    } else {
      assert RecordMessages(gs, order, k) == before + gs[i];
      assert FirstOf(gs, i + 1) == FirstOf(gs, i) + |gs[i]| && Flat(gs, i + 1) == Flat(gs, i) + gs[i];
      FirstGrows(gs, t, i);
    }
  }

  /**
   Copies and late retransmissions do no harm: the receiver hands over each message once and in order exactly
   when the last packet arrives and no packet comes before an earlier one has; and then nothing is reported lost.
   */
  lemma CopiesDoNoHarm(start: State, session: Session, gs: seq<seq<Bytes>>, order: Order)
    requires AllShippable(gs) && Names(order, |gs|) && !start.started
    ensures HandedBy(start, Arrived(session, gs, order, |order|)) == Flat(gs, |gs|)
      <==> NoHole(order, |order|) && Top(order, |order|) == |gs|
    ensures NoHole(order, |order|) ==> LostBy(start, Arrived(session, gs, order, |order|)) == []
  {
    var t := Top(order, |order|);
    AnyArrivals(start, session, gs, order, |order|);
    NoHoleExactly(gs, order, |order|);
    FlatSize(gs, t);
    FlatSize(gs, |gs|);
    FirstGrows(gs, t, |gs|);
    if NoHole(order, |order|) {
      NoHoleGaps(gs, order, |order|);
    }
  }

  lemma {:induction false} NoHoleGaps(gs: seq<seq<Bytes>>, order: Order, k: nat)
    requires AllShippable(gs) && Names(order, |gs|) && k <= |order| && NoHole(order, |order|)
    ensures SteppedOver(gs, order, k) == []
  {
    if k > 0 {
      NoHoleGaps(gs, order, k - 1);
      assert order[k - 1] <= Top(order, k - 1);
    }
  }
}
