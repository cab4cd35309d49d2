/** The replayer: frames a file, packs its messages, and sends or drops each packet. */
module Replaying {
  import opened Words
  import opened Bytes
  import opened Framing
  import opened Mold
  import opened Packing
  import opened DecoderSpec
  import opened Lossy

  datatype DropEntry = DropEntry(first: u64, count: u64, index: nat)

  /** The messages of the first `i` packets, in order. */
  function Flat(gs: seq<seq<Bytes>>, i: nat): seq<Bytes>
    requires i <= |gs|
  {
    if i == 0 then [] else Flat(gs, i - 1) + gs[i - 1]
  }

  /** The messages that fit a packet of `maxPayload` bytes. */
  function Fitting(ms: seq<Bytes>, maxPayload: nat): seq<Bytes> {
    if ms == [] then []
    else if 2 + |ms[0]| > maxPayload then Fitting(ms[1..], maxPayload)
    else [ms[0]] + Fitting(ms[1..], maxPayload)
  }

  /** The drop log of the first `i` packets. */
  ghost function DropLog(gs: seq<seq<Bytes>>, drop: Drop, i: nat): seq<DropEntry>
    requires AllShippable(gs) && i <= |gs|
  {
    if i == 0 then []
    else
      FirstGrows(gs, i - 1, |gs|);
      assert Shippable(gs[i - 1]);
      if drop(i - 1) then DropLog(gs, drop, i - 1) + [DropEntry(FirstOf(gs, i - 1), |gs[i - 1]|, i - 1)]
      else DropLog(gs, drop, i - 1)
  }

  // ---- one more packet ----

  lemma {:induction false} FirstPrefix(gs: seq<seq<Bytes>>, g: seq<Bytes>, i: nat)
    requires i <= |gs|
    ensures FirstOf(gs + [g], i) == FirstOf(gs, i) && Flat(gs + [g], i) == Flat(gs, i)
  {
    if i > 0 {
      FirstPrefix(gs, g, i - 1);
    }
  }

  lemma PacketPrefix(session: Session, gs: seq<seq<Bytes>>, g: seq<Bytes>, i: nat)
    requires AllShippable(gs) && i < |gs|
    ensures |gs[i]| < 0xFFFF && FirstOf(gs, i) < TWO_64 && FirstOf(gs + [g], i) == FirstOf(gs, i)
    ensures Packet(session, gs + [g], i) == Packet(session, gs, i)
  {
    FirstPrefix(gs, g, i);
    assert Shippable(gs[i]);
    FirstGrows(gs, i, |gs|);
  }

  lemma {:induction false} SentPrefix(session: Session, gs: seq<seq<Bytes>>, g: seq<Bytes>, drop: Drop, i: nat)
    requires AllShippable(gs) && AllShippable(gs + [g]) && i <= |gs|
    ensures Sent(session, gs + [g], drop, i) == Sent(session, gs, drop, i)
  {
    if i > 0 {
      SentPrefix(session, gs, g, drop, i - 1);
      PacketPrefix(session, gs, g, i - 1);
    }
  }

  lemma {:induction false} LogPrefix(gs: seq<seq<Bytes>>, g: seq<Bytes>, drop: Drop, i: nat)
    requires AllShippable(gs) && AllShippable(gs + [g]) && i <= |gs|
    ensures DropLog(gs + [g], drop, i) == DropLog(gs, drop, i)
  {
    if i > 0 {
      LogPrefix(gs, g, drop, i - 1);
      FirstPrefix(gs, g, i - 1);
    }
  }

  lemma OneMorePacket(session: Session, gs: seq<seq<Bytes>>, g: seq<Bytes>, drop: Drop)
    requires AllShippable(gs) && Shippable(g) && FirstOf(gs, |gs|) + |g| < TWO_64
    ensures var n, all := |gs|, gs + [g];
      && AllShippable(all)
      && FirstOf(all, n + 1) == FirstOf(gs, n) + |g|
      && Flat(all, n + 1) == Flat(gs, n) + g
      && Sent(session, all, drop, n + 1) ==
           (if drop(n) then Sent(session, gs, drop, n)
            else Sent(session, gs, drop, n) + [PacketOf(session, FirstOf(gs, n), g)])
      && DropLog(all, drop, n + 1) ==
           (if drop(n) then DropLog(gs, drop, n) + [DropEntry(FirstOf(gs, n), |g|, n)] else DropLog(gs, drop, n))
  {
    var all := gs + [g];
    FirstPrefix(gs, g, |gs|);
    forall i | 0 <= i < |all| ensures Shippable(all[i]) {
      assert i < |gs| ==> Shippable(gs[i]);
    }
    SentPrefix(session, gs, g, drop, |gs|);
    LogPrefix(gs, g, drop, |gs|);
  }

  lemma {:induction false} FlatSize(gs: seq<seq<Bytes>>, i: nat)
    requires i <= |gs|
    ensures |Flat(gs, i)| == FirstOf(gs, i) - 1
  {
    if i > 0 {
      FlatSize(gs, i - 1);
    }
  }

  /** What has been sent and logged is right for the packets built so far, all within the payload limit. */
  ghost predicate Logged(session: Session, maxPayload: nat, gs: seq<seq<Bytes>>, drop: Drop,
                         sequence: u64, sent: seq<Bytes>, drops: seq<DropEntry>) {
    && AllShippable(gs)
    && (forall i {:trigger Encode(gs[i])} | 0 <= i < |gs| :: |Encode(gs[i])| <= maxPayload)
    && sequence == FirstOf(gs, |gs|)
    && sent == Sent(session, gs, drop, |gs|)
    && drops == DropLog(gs, drop, |gs|)
  }

  lemma LogOneMore(session: Session, maxPayload: nat, gs: seq<seq<Bytes>>, drop: Drop,
                   sequence: u64, sent: seq<Bytes>, drops: seq<DropEntry>, g: seq<Bytes>)
    requires Logged(session, maxPayload, gs, drop, sequence, sent, drops)
    requires Shippable(g) && |Encode(g)| <= maxPayload && sequence + |g| < TWO_64
    ensures Logged(session, maxPayload, gs + [g], drop, sequence + |g|,
                   if drop(|gs|) then sent else sent + [PacketOf(session, sequence, g)],
                   if drop(|gs|) then drops + [DropEntry(sequence, |g|, |gs|)] else drops)
    ensures Flat(gs + [g], |gs| + 1) == Flat(gs, |gs|) + g
  {
    OneMorePacket(session, gs, g, drop);
  }

  // ---- the drop log and the gaps ----

  /** How many messages the logged packets held that were dropped after one was kept. */
  function Noticed(drop: Drop, drops: seq<DropEntry>): nat {
    if drops == [] then 0
    else
      var e := drops[|drops| - 1];
      Noticed(drop, drops[..|drops| - 1]) + if LastKept(drop, e.index) > 0 then e.count else 0
  }

  lemma NoticedNext(drop: Drop, drops: seq<DropEntry>, e: DropEntry)
    ensures Noticed(drop, drops + [e]) == Noticed(drop, drops) + if LastKept(drop, e.index) > 0 then e.count else 0
  {
    assert (drops + [e])[..|drops|] == drops;
  }

  lemma LogGrows(gs: seq<seq<Bytes>>, drop: Drop, i: nat)
    requires AllShippable(gs) && 0 < i <= |gs| && drop(i - 1)
    ensures Noticed(drop, DropLog(gs, drop, i))
      == Noticed(drop, DropLog(gs, drop, i - 1)) + if LastKept(drop, i - 1) > 0 then |gs[i - 1]| else 0
  {
    FirstGrows(gs, i - 1, |gs|);
    assert Shippable(gs[i - 1]);
    NoticedNext(drop, DropLog(gs, drop, i - 1), DropEntry(FirstOf(gs, i - 1), |gs[i - 1]|, i - 1));
  }

  lemma {:induction false} LogIsGaps(gs: seq<seq<Bytes>>, drop: Drop, i: nat)
    requires AllShippable(gs) && i <= |gs|
    ensures GapTotal(ClosedRuns(gs, drop, i)) + GapTotal(OpenRun(gs, drop, i)) == Noticed(drop, DropLog(gs, drop, i))
  {
    if i > 0 {
      LogIsGaps(gs, drop, i - 1);
      if drop(i - 1) {
        LogGrows(gs, drop, i);
        OpenGrows(gs, drop, i);
      } else {
        GapTotalConcat(ClosedRuns(gs, drop, i - 1), OpenRun(gs, drop, i - 1));
      }
    }
  }

  /** A dropped packet makes the open run longer by its messages, if a packet was kept before it. */
  lemma OpenGrows(gs: seq<seq<Bytes>>, drop: Drop, i: nat)
    requires AllShippable(gs) && 0 < i <= |gs| && drop(i - 1)
    ensures GapTotal(OpenRun(gs, drop, i))
      == GapTotal(OpenRun(gs, drop, i - 1)) + if LastKept(drop, i - 1) > 0 then |gs[i - 1]| else 0
  {
    var a := LastKept(drop, i);
    if a > 0 {
      assert OpenRun(gs, drop, i) == [RunGap(gs, a, i)];
    }
  }

  /** The packet `i` was dropped, and the entry names its first message, how many it holds, and its place. */
  predicate LogsDrop(gs: seq<seq<Bytes>>, drop: Drop, e: DropEntry, i: nat)
    requires i < |gs|
  {
    drop(i) && e.first == FirstOf(gs, i) && e.count == |gs[i]| && e.index == i
  }

  /** The log holds an entry for each packet dropped, and for no other. */
  lemma {:induction false} LogExactly(gs: seq<seq<Bytes>>, drop: Drop, n: nat, e: DropEntry)
    requires AllShippable(gs) && n <= |gs|
    ensures e in DropLog(gs, drop, n) <==> exists i: nat :: i < n && LogsDrop(gs, drop, e, i)
  {
    if n > 0 {
      LogExactly(gs, drop, n - 1, e);
      FirstGrows(gs, n - 1, |gs|);
      assert Shippable(gs[n - 1]);
      if drop(n - 1) && e == DropEntry(FirstOf(gs, n - 1), |gs[n - 1]|, n - 1) {
        assert LogsDrop(gs, drop, e, n - 1);
      }
    }
  }

  /** The receiver counts as lost what the log says was dropped after the first kept packet. */
  lemma LogMatchesGaps(session: Session, gs: seq<seq<Bytes>>, drop: Drop)
    requires AllShippable(gs)
    ensures Run(INITIAL, Transmission(session, gs, drop)).gapMessages == Noticed(drop, DropLog(gs, drop, |gs|))
  {
    TransmissionReceived(session, gs, drop);
    CountersAreTotals(INITIAL, Transmission(session, gs, drop));
    GapTotalConcat(ClosedRuns(gs, drop, |gs|), OpenRun(gs, drop, |gs|));
    LogIsGaps(gs, drop, |gs|);
  }

  // ---- packets are filled ----

  /** A packet that has no room for one more message: by its bytes, or by its count. */
  predicate Full(g: seq<Bytes>, m: Bytes, maxPayload: nat) {
    |Encode(g)| + 2 + |m| > maxPayload || |g| == END_OF_SESSION - 1
  }

  /** Every packet was full for the message that begins the next one. */
  ghost predicate Filled(gs: seq<seq<Bytes>>, maxPayload: nat) {
    && (forall i {:trigger gs[i]} | 0 <= i < |gs| :: gs[i] != [])
    && forall i {:trigger FullAt(gs, i, maxPayload)} | 0 <= i < |gs| - 1 :: FullAt(gs, i, maxPayload)
  }

  predicate FullAt(gs: seq<seq<Bytes>>, i: nat, maxPayload: nat)
    requires i + 1 < |gs| && gs[i + 1] != []
  {
    Full(gs[i], gs[i + 1][0], maxPayload)
  }

  /** So was the last packet for the first message that waits, and some message waits once a packet is built. */
  ghost predicate Packed(gs: seq<seq<Bytes>>, pending: seq<Bytes>, maxPayload: nat) {
    && Filled(gs, maxPayload)
    && (pending == [] ==> gs == [])
    && (gs != [] ==> Full(gs[|gs| - 1], pending[0], maxPayload))
  }

  /** The last packet was full for the first message that is not in any packet. */
  ghost predicate Refused(gs: seq<seq<Bytes>>, all: seq<Bytes>, maxPayload: nat) {
    && gs != [] && |Flat(gs, |gs|)| < |all|
    && Full(gs[|gs| - 1], all[|Flat(gs, |gs|)|], maxPayload)
  }

  lemma FilledNext(gs: seq<seq<Bytes>>, g: seq<Bytes>, maxPayload: nat)
    requires Packed(gs, g, maxPayload) && g != []
    ensures Filled(gs + [g], maxPayload)
  {
    var all := gs + [g];
    forall i | 0 <= i < |all| - 1 ensures FullAt(all, i, maxPayload) {
      assert i < |gs| - 1 ==> FullAt(gs, i, maxPayload);
    }
  }

  lemma PackedMore(gs: seq<seq<Bytes>>, pending: seq<Bytes>, m: Bytes, maxPayload: nat)
    requires Packed(gs, pending, maxPayload)
    ensures Packed(gs, pending + [m], maxPayload)
  {
  }

  /** The full packet has been built, and the message it had no room for waits. */
  lemma PackedNext(gs: seq<seq<Bytes>>, g: seq<Bytes>, m: Bytes, maxPayload: nat)
    requires Packed(gs, g, maxPayload) && g != [] && Full(g, m, maxPayload)
    ensures StoppedAt(gs + [g], m, maxPayload) && Packed(gs + [g], [m], maxPayload)
  {
    FilledNext(gs, g, maxPayload);
  }

  /** Every packet built is full for what begins the next, the last one for `m`. */
  ghost predicate StoppedAt(gs: seq<seq<Bytes>>, m: Bytes, maxPayload: nat) {
    Filled(gs, maxPayload) && gs != [] && Full(gs[|gs| - 1], m, maxPayload)
  }

  // ---- no packing uses fewer packets ----

  /** The messages of a list of groups, and how many come before group `i`. */
  lemma {:induction false} GroupIsSlice(gs: seq<seq<Bytes>>, i: nat, n: nat)
    requires i < n <= |gs|
    ensures FirstOf(gs, i + 1) <= FirstOf(gs, n) == |Flat(gs, n)| + 1
    ensures gs[i] == Flat(gs, n)[FirstOf(gs, i) - 1..FirstOf(gs, i + 1) - 1]
  {
    FlatSize(gs, n);
    FlatSize(gs, n - 1);
    if i < n - 1 {
      GroupIsSlice(gs, i, n - 1);
      assert Flat(gs, n)[..|Flat(gs, n - 1)|] == Flat(gs, n - 1);
    }
  }

  /** A longer stretch of messages takes more bytes. */
  lemma {:induction false} StretchGrows(ms: seq<Bytes>, c: nat, a: nat, b: nat, d: nat)
    requires c <= a <= b <= d <= |ms|
    ensures |Encode(ms[a..b])| <= |Encode(ms[c..d])|
    decreases d - c
  {
    if b < d {
      StretchGrows(ms, c, a, b, d - 1);
      assert ms[c..d] == ms[c..d - 1] + [ms[d - 1]];
      EncodeAppend(ms[c..d - 1], ms[d - 1]);
    } else if c < a {
      StretchGrows(ms, c + 1, a, b, d);
      EncodeFirst(ms[c..d]);
      assert ms[c..d][1..] == ms[c + 1..d];
    }
  }

  /** Groups that a packet can hold. */
  ghost predicate FitPackets(hs: seq<seq<Bytes>>, maxPayload: nat) {
    forall i {:trigger hs[i]} | 0 <= i < |hs| :: |Encode(hs[i])| <= maxPayload && |hs[i]| < END_OF_SESSION
  }

  /** One packet cannot hold all of a full packet and the message it had no room for. */
  lemma NoRoom(ms: seq<Bytes>, c: nat, a: nat, b: nat, d: nat, maxPayload: nat)
    requires c <= a <= b < d <= |ms| && Full(ms[a..b], ms[b], maxPayload)
    ensures |Encode(ms[c..d])| > maxPayload || d - c >= END_OF_SESSION
  {
    assert ms[a..b + 1] == ms[a..b] + [ms[b]];
    EncodeAppend(ms[a..b], ms[b]);
    StretchGrows(ms, c, a, b + 1, d);
  }

  /** Where group `i` of a division of `ms` lies. */
  lemma GroupLies(gs: seq<seq<Bytes>>, ms: seq<Bytes>, i: nat) returns (a: nat, b: nat)
    requires ms == Flat(gs, |gs|) && i < |gs|
    ensures a == FirstOf(gs, i) - 1 && b == FirstOf(gs, i + 1) - 1 && a <= b <= |ms| && gs[i] == ms[a..b]
  {
    GroupIsSlice(gs, i, |gs|);
    a, b := FirstOf(gs, i) - 1, FirstOf(gs, i + 1) - 1;
  }

  /** A filled packet that another follows was full for the message that comes after it. */
  lemma FullThere(gs: seq<seq<Bytes>>, ms: seq<Bytes>, maxPayload: nat, i: nat) returns (a: nat, b: nat)
    requires Filled(gs, maxPayload) && ms == Flat(gs, |gs|) && i + 1 < |gs|
    ensures a == FirstOf(gs, i) - 1 && b == FirstOf(gs, i + 1) - 1
    ensures a <= b < |ms| && Full(ms[a..b], ms[b], maxPayload)
  {
    a, b := GroupLies(gs, ms, i);
    var b', e := GroupLies(gs, ms, i + 1);
    assert gs[i + 1] != [] && FullAt(gs, i, maxPayload);
  }

  /** Filled packets are ahead of any other division of the same messages into packets. */
  lemma {:induction false} FilledIsAhead(gs: seq<seq<Bytes>>, hs: seq<seq<Bytes>>, ms: seq<Bytes>, maxPayload: nat,
                                         i: nat) returns (c: nat, a: nat)
    requires Filled(gs, maxPayload) && FitPackets(hs, maxPayload) && ms == Flat(gs, |gs|) && ms == Flat(hs, |hs|)
    requires i < |gs| && i <= |hs|
    ensures c == FirstOf(hs, i) - 1 && a == FirstOf(gs, i) - 1 && c <= a
  {
    if i == 0 {
      c, a := 0, 0;
    } else {
      var c', a' := FilledIsAhead(gs, hs, ms, maxPayload, i - 1);
      a', a := FullThere(gs, ms, maxPayload, i - 1);
      c', c := GroupLies(hs, ms, i - 1);
      assert |Encode(hs[i - 1])| <= maxPayload && |hs[i - 1]| < END_OF_SESSION;
      if a < c {
        NoRoom(ms, c', a', a, c, maxPayload);
      }
    }
  }

  /** No division of the same messages into packets of this payload limit needs fewer packets. */
  lemma FewestPackets(gs: seq<seq<Bytes>>, hs: seq<seq<Bytes>>, maxPayload: nat)
    requires Filled(gs, maxPayload) && FitPackets(hs, maxPayload) && Flat(gs, |gs|) == Flat(hs, |hs|)
    ensures |gs| <= |hs|
  {
    if |hs| < |gs| {
      assert gs[|hs|] != [];
      FlatSize(hs, |hs|);
      var a', b := GroupLies(gs, Flat(gs, |gs|), |hs|);
      var c, a := FilledIsAhead(gs, hs, Flat(gs, |gs|), maxPayload, |hs|);
    }
  }

  class Replayer {
    const packer: Packer
    const drop: Drop
    var sent: seq<Bytes>
    var drops: seq<DropEntry>
    var packetsBuilt: nat
    var packetsDropped: nat
    /** The packets built so far, dropped or not, as the messages they hold. */
    ghost var groups: seq<seq<Bytes>>

    ghost predicate Valid()
      reads this, packer, packer.buffer
    {
      && packer.Valid()
      && (forall m | m in packer.pending :: Framable(m))
      && Logged(packer.session, packer.maxPayload, groups, drop, packer.sequence, sent, drops)
      && packetsBuilt == |groups| && packetsDropped == |drops|
    }

    constructor (session: Session, maxPayload: nat, drop: Drop)
      ensures Valid() && groups == [] && packer.pending == []
      ensures fresh(packer) && fresh(packer.buffer)
      ensures packer.session == session && packer.maxPayload == maxPayload && this.drop == drop
    {
      packer := new Packer(session, 1, maxPayload);
      this.drop := drop;
      sent, drops := [], [];
      packetsBuilt, packetsDropped := 0, 0;
      groups := [];
    }

    /** All messages taken so far: those in built packets, then those in the packet being built. */
    ghost function Taken(): seq<Bytes>
      reads this, packer
    {
      Flat(groups, |groups|) + packer.pending
    }

    /** Sends or drops the packet being built; the sequence advances either way. */
    method Flush()
      requires Valid() && packer.sequence + packer.count < TWO_64
      modifies this, packer, packer.buffer
      ensures Valid()
      ensures packer.pending == []
      ensures groups == if old(packer.pending) == [] then old(groups) else old(groups) + [old(packer.pending)]
      ensures Taken() == old(Taken())
    {
      if packer.count == 0 {
        return;
      }
      Ship();
    }

    /** `flush` of a packet that holds messages. */
    method Ship()
      requires Valid() && packer.sequence + packer.count < TWO_64 && packer.pending != []
      modifies this, packer, packer.buffer
      ensures Valid()
      ensures packer.pending == [] && groups == old(groups) + [old(packer.pending)]
      ensures Taken() == old(Taken())
    {
      ghost var g, gs := packer.pending, groups;
      LogOneMore(packer.session, packer.maxPayload, gs, drop, packer.sequence, sent, drops, g);
      var first, count := packer.sequence, packer.count;
      var packet := packer.Finish();
      SendOrDrop(packet, first, count);
      groups := gs + [g];
    }

    method SendOrDrop(packet: Bytes, first: u64, count: u64)
      modifies this`sent, this`drops, this`packetsBuilt, this`packetsDropped
      ensures packetsBuilt == old(packetsBuilt) + 1
      ensures packetsDropped == old(packetsDropped) + if drop(old(packetsBuilt)) then 1 else 0
      ensures sent == if drop(old(packetsBuilt)) then old(sent) else old(sent) + [packet]
      ensures drops ==
        if drop(old(packetsBuilt)) then old(drops) + [DropEntry(first, count, old(packetsBuilt))] else old(drops)
    {
      var index := packetsBuilt;
      packetsBuilt := packetsBuilt + 1;
      if drop(index) {
        packetsDropped := packetsDropped + 1;
        drops := drops + [DropEntry(first, count, index)];
      } else {
        sent := sent + [packet];
      }
    }

    /** Packs one message that fits, flushing a full packet first; the retry on an empty packet cannot fail. */
    method Pack(msg: Bytes, maxPackets: nat) returns (stopped: bool)
      requires Valid() && Framable(msg) && !packer.TooLarge(|msg|)
      requires |Taken()| + 2 < TWO_64 && (maxPackets != 0 ==> packetsBuilt < maxPackets)
      requires Packed(groups, packer.pending, packer.maxPayload)
      modifies this, packer, packer.buffer
      ensures Valid()
      ensures Taken() == if stopped then old(Taken()) else old(Taken()) + [msg]
      ensures !stopped ==> Packed(groups, packer.pending, packer.maxPayload)
      ensures stopped ==> packer.pending == [] && StoppedAt(groups, msg, packer.maxPayload)
      ensures maxPackets != 0 ==> if stopped then packetsBuilt == maxPackets else packetsBuilt < maxPackets
      ensures maxPackets == 0 ==> !stopped
    {
      FlatSize(groups, |groups|);
      PackedMore(groups, packer.pending, msg, packer.maxPayload);
      var ok := Offer(msg);
      if ok {
        return false;
      }
      stopped := PackNext(msg, maxPackets);
    }

    /** The packet is full: it is built, and the message begins the next one if there may be a next one. */
    method PackNext(msg: Bytes, maxPackets: nat) returns (stopped: bool)
      requires Valid() && Framable(msg) && !packer.TooLarge(|msg|)
      requires |Taken()| + 2 < TWO_64 && (maxPackets != 0 ==> packetsBuilt < maxPackets)
      requires Packed(groups, packer.pending, packer.maxPayload)
      requires packer.pending != [] && Full(packer.pending, msg, packer.maxPayload)
      requires packer.sequence + packer.count < TWO_64
      modifies this, packer, packer.buffer
      ensures Valid()
      ensures Taken() == if stopped then old(Taken()) else old(Taken()) + [msg]
      ensures !stopped ==> Packed(groups, packer.pending, packer.maxPayload)
      ensures stopped ==> packer.pending == [] && StoppedAt(groups, msg, packer.maxPayload)
      ensures maxPackets != 0 ==> if stopped then packetsBuilt == maxPackets else packetsBuilt < maxPackets
      ensures maxPackets == 0 ==> !stopped
    {
      PackedNext(groups, packer.pending, msg, packer.maxPayload);
      Flush();
      if maxPackets != 0 && packetsBuilt >= maxPackets {
        return true;
      }
      var ok := Offer(msg);
      assert ok;
      return false;
    }

    /** `try_add`, seen from the whole run. */
    method Offer(msg: Bytes) returns (ok: bool)
      requires Valid() && Framable(msg) && !packer.TooLarge(|msg|)
      modifies packer, packer.buffer
      ensures Valid() && packer.sequence == old(packer.sequence)
      ensures Taken() == if ok then old(Taken()) + [msg] else old(Taken())
      ensures ok ==> packer.pending == old(packer.pending) + [msg]
      ensures !ok ==> packer.pending == old(packer.pending) != []
      ensures ok == !Full(old(packer.pending), msg, packer.maxPayload)
    {
      Associate(Flat(groups, |groups|), packer.pending, [msg]);
      ok := packer.TryAdd(msg);
    }

    /** The frame-and-pack loop, and the marker that ends the session. */
    method Run(file: Bytes, maxPackets: nat)
      returns (read: nat, packed: nat, tooLarge: nat, stopped: bool, marker: Bytes)
      requires Valid() && groups == [] && packer.pending == [] && |file| < TWO_64
      modifies this, packer, packer.buffer
      ensures Valid() && packer.pending == []
      ensures packed + tooLarge == read
      ensures packer.sequence == 1 + packed && packed == |Flat(groups, |groups|)|
      ensures !stopped ==>
        && Flat(groups, |groups|) == Fitting(Frames(file, 0), packer.maxPayload)
        && read == |Frames(file, 0)|
      ensures stopped ==> Flat(groups, |groups|) < Fitting(Frames(file, 0), packer.maxPayload)
      ensures maxPackets != 0 ==> packetsBuilt <= maxPackets && (stopped ==> packetsBuilt == maxPackets)
      ensures maxPackets == 0 ==> !stopped
      ensures sent + [marker] == Transmission(packer.session, groups, drop)
      ensures forall i {:trigger groups[i]} | 0 <= i < |groups| :: groups[i] != []
      ensures forall i {:trigger Encode(groups[i])} | 0 <= i < |groups| - 1 ::
        |Encode(groups[i])| + 2 + |groups[i + 1][0]| > packer.maxPayload || |groups[i]| == END_OF_SESSION - 1
      ensures stopped ==> Refused(groups, Fitting(Frames(file, 0), packer.maxPayload), packer.maxPayload)
      ensures forall hs | FitPackets(hs, packer.maxPayload) && Flat(hs, |hs|) == Flat(groups, |groups|) ::
        packetsBuilt <= |hs|
    {
      read, packed, tooLarge, stopped := PackAll(file, maxPackets);
      if stopped {
        read := read - 1;
      }
      marker := Close();
      forall i | 0 <= i < |groups| - 1
        ensures |Encode(groups[i])| + 2 + |groups[i + 1][0]| > packer.maxPayload || |groups[i]| == END_OF_SESSION - 1
      {
        assert FullAt(groups, i, packer.maxPayload);
      }
      forall hs | FitPackets(hs, packer.maxPayload) && Flat(hs, |hs|) == Flat(groups, |groups|)
        ensures packetsBuilt <= |hs|
      {
        FewestPackets(groups, hs, packer.maxPayload);
      }
    }

    /** The loop of `Run`: takes every message that fits, in order, until the file or the packet limit ends it. */
    method PackAll(file: Bytes, maxPackets: nat) returns (read: nat, packed: nat, tooLarge: nat, stopped: bool)
      requires Valid() && groups == [] && packer.pending == [] && |file| < TWO_64
      modifies this, packer, packer.buffer
      ensures Valid()
      ensures packed == |Taken()| && packed + tooLarge + (if stopped then 1 else 0) == read && 3 * read <= |file|
      ensures !stopped ==> Taken() == Fitting(Frames(file, 0), packer.maxPayload) && read == |Frames(file, 0)|
      ensures stopped ==> Taken() < Fitting(Frames(file, 0), packer.maxPayload) && packer.pending == []
      ensures maxPackets != 0 ==> if stopped then packetsBuilt == maxPackets else packetsBuilt < maxPackets
      ensures maxPackets == 0 ==> !stopped
      ensures if stopped then Filled(groups, packer.maxPayload)
              else Packed(groups, packer.pending, packer.maxPayload)
      ensures stopped ==> Refused(groups, Fitting(Frames(file, 0), packer.maxPayload), packer.maxPayload)
    {
      var framer := new Framer(file);
      read, packed, tooLarge, stopped := 0, 0, 0, false;
      ghost var ms, all := Frames(file, 0), Fitting(Frames(file, 0), packer.maxPayload);
      FramesAreFew(file, 0);
      while true
        invariant Valid() && framer.Reading(ms, read)
        invariant Taken() + Fitting(ms[read..], packer.maxPayload) == all
        invariant packed == |Taken()| && packed + tooLarge == read
        invariant !stopped && (maxPackets != 0 ==> packetsBuilt < maxPackets)
        invariant Packed(groups, packer.pending, packer.maxPayload)
        decreases |ms| - read
      {
        var more, skipped;
        more, skipped, stopped := TakeNext(framer, maxPackets, ms, all, read);
        if !more {
          break;
        }
        read := read + 1;
        if skipped {
          tooLarge := tooLarge + 1;
          continue;
        }
        if stopped {
          break;
        }
        packed := packed + 1;
      }
    }

    /** One turn of the loop: the next message, if there is one, taken. */
    method TakeNext(framer: Framer, maxPackets: nat, ghost ms: seq<Bytes>, ghost all: seq<Bytes>, ghost k: nat)
      returns (more: bool, skipped: bool, stopped: bool)
      requires Valid() && framer.Reading(ms, k) && |Taken()| <= k && |ms| + 2 < TWO_64
      requires Taken() + Fitting(ms[k..], packer.maxPayload) == all
      requires maxPackets != 0 ==> packetsBuilt < maxPackets
      requires Packed(groups, packer.pending, packer.maxPayload)
      modifies this, packer, packer.buffer, framer`pos
      ensures Valid() && more == (k < |ms|) && framer.Reading(ms, if more then k + 1 else k)
      ensures !stopped ==> Taken() + Fitting(ms[if more then k + 1 else k..], packer.maxPayload) == all
      ensures |Taken()| == |old(Taken())| + if !more || skipped || stopped then 0 else 1
      ensures stopped ==> more && !skipped && Taken() < all && packer.pending == []
      ensures maxPackets != 0 ==> if stopped then packetsBuilt == maxPackets else packetsBuilt < maxPackets
      ensures maxPackets == 0 ==> !stopped
      ensures if stopped then Filled(groups, packer.maxPayload) && Refused(groups, all, packer.maxPayload)
              else Packed(groups, packer.pending, packer.maxPayload)
    {
      var msg;
      more, msg := framer.NextOf(ms, k);
      skipped, stopped := false, false;
      if more {
        assert ms[k..] == [msg] + ms[k + 1..];
        skipped, stopped := Take(msg, maxPackets, ms[k + 1..], all);
      }
    }

    /** One round of the loop: a message that can never fit is counted and skipped. */
    method Take(msg: Bytes, maxPackets: nat, ghost rest: seq<Bytes>, ghost all: seq<Bytes>)
      returns (skipped: bool, stopped: bool)
      requires Valid() && Framable(msg)
      requires Taken() + Fitting([msg] + rest, packer.maxPayload) == all
      requires |Taken()| + 2 < TWO_64 && (maxPackets != 0 ==> packetsBuilt < maxPackets)
      requires Packed(groups, packer.pending, packer.maxPayload)
      modifies this, packer, packer.buffer
      ensures Valid()
      ensures !stopped ==> Taken() + Fitting(rest, packer.maxPayload) == all
      ensures |Taken()| == |old(Taken())| + if skipped || stopped then 0 else 1
      ensures stopped ==> !skipped && Taken() < all && packer.pending == []
      ensures maxPackets != 0 ==> if stopped then packetsBuilt == maxPackets else packetsBuilt < maxPackets
      ensures maxPackets == 0 ==> !stopped
      ensures if stopped then Filled(groups, packer.maxPayload) && Refused(groups, all, packer.maxPayload)
              else Packed(groups, packer.pending, packer.maxPayload)
    {
      FittingStep(msg, rest, packer.maxPayload);
      if packer.TooLarge(|msg|) {
        return true, false;
      }
      ghost var before, after := Taken(), Fitting(rest, packer.maxPayload);
      stopped := Pack(msg, maxPackets);
      Associate(before, [msg], after);
      return false, stopped;
    }

    /** The last flush and the marker. */
    method Close() returns (marker: Bytes)
      requires Valid() && |Taken()| + 1 < TWO_64
      requires Filled(groups, packer.maxPayload)
      requires packer.pending != [] ==> Packed(groups, packer.pending, packer.maxPayload)
      modifies this, packer, packer.buffer
      ensures Valid() && packer.pending == [] && Filled(groups, packer.maxPayload)
      ensures old(packer.pending) == [] ==> groups == old(groups)
      ensures Flat(groups, |groups|) == old(Taken()) && packer.sequence == 1 + |old(Taken())|
      ensures packetsBuilt == old(packetsBuilt) + (if old(packer.pending) == [] then 0 else 1)
      ensures sent + [marker] == Transmission(packer.session, groups, drop)
    {
      FlatSize(groups, |groups|);
      if packer.pending != [] {
        FilledNext(groups, packer.pending, packer.maxPayload);
      }
      Flush();
      FlatSize(groups, |groups|);
      marker := packer.EndOfSession();
    }
  }

  lemma FittingStep(m: Bytes, rest: seq<Bytes>, maxPayload: nat)
    ensures Fitting([m] + rest, maxPayload) ==
      if 2 + |m| > maxPayload then Fitting(rest, maxPayload) else [m] + Fitting(rest, maxPayload)
  {
    assert ([m] + rest)[1..] == rest;
  }
}
