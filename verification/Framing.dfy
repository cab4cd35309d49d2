/** The walk over a stream of length-prefixed messages, and the encoding it undoes. */
module Framing {
  import opened Bytes

  /** A whole frame starts at `pos`: two bytes of length, not zero, and that many bytes after them. */
  predicate HasFrame(d: Bytes, pos: nat)
    requires pos <= |d|
  {
    && |d| - pos >= 2
    && Be16(d, pos) != 0
    && |d| - pos - 2 >= Be16(d, pos)
  }

  function FrameEnd(d: Bytes, pos: nat): (e: nat)
    requires pos <= |d| && HasFrame(d, pos)
    ensures pos + 2 < e <= |d|
  {
    pos + 2 + Be16(d, pos)
  }

  /** The messages a walk from `pos` hands out. */
  function Frames(d: Bytes, pos: nat): seq<Bytes>
    requires pos <= |d|
    decreases |d| - pos
  {
    if !HasFrame(d, pos) then []
    else [d[pos + 2..FrameEnd(d, pos)]] + Frames(d, FrameEnd(d, pos))
  }

  /** Every message takes three bytes at least. */
  lemma {:induction false} FramesAreFew(d: Bytes, pos: nat)
    requires pos <= |d|
    ensures 3 * |Frames(d, pos)| <= |d| - pos
    decreases |d| - pos
  {
    if HasFrame(d, pos) {
      FramesAreFew(d, FrameEnd(d, pos));
    }
  }

  /** Where a walk from `pos` stops. */
  function WalkEnd(d: Bytes, pos: nat): (e: nat)
    requires pos <= |d|
    ensures pos <= e <= |d|
    decreases |d| - pos
  {
    if !HasFrame(d, pos) then pos else WalkEnd(d, FrameEnd(d, pos))
  }

  /** A message that a length prefix can carry. */
  predicate Framable(m: Bytes) {
    1 <= |m| <= 0xFFFF
  }

  function Block(m: Bytes): Bytes {
    ToBE(|m|, 2) + m
  }

  function Encode(ms: seq<Bytes>): Bytes {
    if ms == [] then [] else Encode(ms[..|ms| - 1]) + Block(ms[|ms| - 1])
  }

  class Framer {
    const data: Bytes
    var pos: nat

    ghost predicate Valid()
      reads this
    {
      pos <= |data|
    }

    constructor (data: Bytes)
      ensures Valid() && this.data == data && pos == 0
    {
      this.data := data;
      pos := 0;
    }

    /** Hands out the next message, or reports the end without moving. */
    method Next() returns (ok: bool, msg: Bytes)
      requires Valid()
      modifies this`pos
      ensures Valid()
      ensures ok == HasFrame(data, old(pos))
      ensures ok ==> Frames(data, old(pos)) == [msg] + Frames(data, pos) && Framable(msg) && pos >= old(pos) + 3
      ensures !ok ==> pos == old(pos) && Frames(data, pos) == []
      ensures ok ==> BlockStarts(data, old(pos), msg) && pos == old(pos) + 2 + |msg|
      ensures ok <==> exists m :: BlockStarts(data, old(pos), m)
      ensures WalkEnd(data, pos) == WalkEnd(data, old(pos))
    {
      FrameExactly(data, pos);
      msg := [];
      if |data| - pos < 2 {
        return false, msg;
      }
      var len := ReadBE(data, pos, 2);
      if len == 0 {
        return false, msg;
      }
      if |data| - pos - 2 < len {
        return false, msg;
      }
      msg := data[pos + 2..pos + 2 + len];
      pos := pos + 2 + len;
      ok := true;
    }

    /** The walk is at message `k` of `ms`. */
    ghost predicate Reading(ms: seq<Bytes>, k: nat)
      reads this
    {
      Valid() && k <= |ms| && Frames(data, pos) == ms[k..]
    }

    /** `Next`, in a walk whose messages are `ms`. */
    method NextOf(ghost ms: seq<Bytes>, ghost k: nat) returns (ok: bool, msg: Bytes)
      requires Reading(ms, k)
      modifies this`pos
      ensures if ok then k < |ms| && msg == ms[k] && Framable(msg) && Reading(ms, k + 1) && pos > old(pos)
              else k == |ms| && Reading(ms, k) && pos == old(pos)
    {
      ok, msg := Next();
      if ok {
        NextFrame(ms, k, msg, Frames(data, pos));
      }
    }

    function Offset(): nat
      reads this
    {
      pos
    }

    predicate Exhausted()
      reads this
    {
      pos == |data|
    }
  }

  // ---- framing and encoding undo each other ----

  lemma {:induction false} EncodeFirst(ms: seq<Bytes>)
    requires ms != []
    ensures Encode(ms) == Block(ms[0]) + Encode(ms[1..])
    decreases |ms|
  {
    var n := |ms| - 1;
    if n > 0 {
      EncodeFirst(ms[..n]);
      assert ms[..n][1..] == ms[1..][..n - 1];
      assert ms[..n][0] == ms[0] && ms[1..][n - 1] == ms[n];
    } else {
      assert ms[..0] == [] && ms[1..] == [];
    }
  }

  /** A block read back after any prefix is one frame. */
  lemma BlockIsFrame(before: Bytes, m: Bytes, after: Bytes)
    requires Framable(m)
    ensures var d := before + Block(m) + after;
      && HasFrame(d, |before|) && FrameEnd(d, |before|) == |before| + |Block(m)|
      && d[|before| + 2..FrameEnd(d, |before|)] == m
  {
    var d := before + Block(m) + after;
    assert d[|before|..|before| + 2] == ToBE(|m|, 2);
    Powers();
    ReadWritten(|m|, 2);
  }

  lemma {:induction false} WalkOfEncoding(before: Bytes, ms: seq<Bytes>)
    requires forall m | m in ms :: Framable(m)
    ensures Frames(before + Encode(ms), |before|) == ms
    ensures WalkEnd(before + Encode(ms), |before|) == |before + Encode(ms)|
    decreases |ms|
  {
    if ms == [] {
      assert before + Encode(ms) == before;
    } else {
      var next := before + Block(ms[0]);
      EncodeFirst(ms);
      assert before + Encode(ms) == next + Encode(ms[1..]);
      BlockIsFrame(before, ms[0], Encode(ms[1..]));
      WalkOfEncoding(next, ms[1..]);
    }
  }

  /** Walking an encoding gives the messages back and consumes it exactly. */
  lemma FramesOfEncoding(ms: seq<Bytes>)
    requires forall m | m in ms :: Framable(m)
    ensures Frames(Encode(ms), 0) == ms && WalkEnd(Encode(ms), 0) == |Encode(ms)|
  {
    assert [] + Encode(ms) == Encode(ms);
    WalkOfEncoding([], ms);
  }

  /** A walk that has handed out `k` messages of `ms` hands out the next one. */
  lemma NextFrame(ms: seq<Bytes>, k: nat, msg: Bytes, rest: seq<Bytes>)
    requires k <= |ms| && ms[k..] == [msg] + rest
    ensures k < |ms| && ms[k] == msg && ms[k + 1..] == rest
  {
    assert ms[k..][0] == ms[k] && ms[k..][1..] == ms[k + 1..];
  }

  lemma EncodeCons(m: Bytes, ms: seq<Bytes>)
    ensures Encode([m] + ms) == Block(m) + Encode(ms)
  {
    EncodeFirst([m] + ms);
    assert ([m] + ms)[1..] == ms;
  }

  /** The bytes of a frame are the block of its message. */
  lemma FrameIsBlock(d: Bytes, pos: nat)
    requires pos <= |d| && HasFrame(d, pos)
    ensures Block(d[pos + 2..FrameEnd(d, pos)]) == d[pos..FrameEnd(d, pos)]
    ensures Framable(d[pos + 2..FrameEnd(d, pos)])
  {
    WriteRead(d[pos..pos + 2]);
    assert d[pos..FrameEnd(d, pos)] == d[pos..pos + 2] + d[pos + 2..FrameEnd(d, pos)];
  }

  /** A message of 1 to 65535 bytes, behind its length, starts at `pos`. */
  predicate BlockStarts(d: Bytes, pos: nat, m: Bytes) {
    1 <= |m| <= 0xFFFF && pos + 2 + |m| <= |d| && d[pos..pos + 2] == ToBE(|m|, 2) && d[pos + 2..pos + 2 + |m|] == m
  }

  lemma BlockIsThere(d: Bytes, pos: nat, m: Bytes)
    requires pos <= |d| && BlockStarts(d, pos, m)
    ensures HasFrame(d, pos)
  {
    Powers();
    ReadWritten(|m|, 2);
  }

  /** There is a frame exactly when a block starts, and then its message is the one in the block. */
  lemma FrameExactly(d: Bytes, pos: nat)
    requires pos <= |d|
    ensures HasFrame(d, pos) <==> exists m :: BlockStarts(d, pos, m)
    ensures HasFrame(d, pos) ==> BlockStarts(d, pos, d[pos + 2..FrameEnd(d, pos)])
  {
    if HasFrame(d, pos) {
      WriteRead(d[pos..pos + 2]);
      assert BlockStarts(d, pos, d[pos + 2..FrameEnd(d, pos)]);
    }
    if m :| BlockStarts(d, pos, m) {
      BlockIsThere(d, pos, m);
    }
  }

  /** What a walk has consumed is the encoding of what it handed out, on any bytes. */
  lemma {:induction false} EncodingOfFrames(d: Bytes, pos: nat)
    requires pos <= |d|
    ensures Encode(Frames(d, pos)) == d[pos..WalkEnd(d, pos)]
    ensures forall m | m in Frames(d, pos) :: Framable(m)
    decreases |d| - pos
  {
    if HasFrame(d, pos) {
      var e := FrameEnd(d, pos);
      EncodingOfFrames(d, e);
      EncodeCons(d[pos + 2..e], Frames(d, e));
      FrameIsBlock(d, pos);
      assert d[pos..WalkEnd(d, pos)] == d[pos..e] + d[e..WalkEnd(d, e)];
    }
  }

  /** A buffer that is walked to its end is the encoding of its messages, and only such a buffer is. */
  lemma ExhaustedIsEncoding(d: Bytes)
    ensures WalkEnd(d, 0) == |d| <==> d == Encode(Frames(d, 0))
  {
    EncodingOfFrames(d, 0);
    assert d[0..|d|] == d;
    if d == Encode(Frames(d, 0)) {
      FramesOfEncoding(Frames(d, 0));
    }
  }

  lemma EncodeAppend(ms: seq<Bytes>, m: Bytes)
    ensures Encode(ms + [m]) == Encode(ms) + Block(m)
  {
    assert (ms + [m])[..|ms|] == ms;
  }
}
