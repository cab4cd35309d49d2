/** Big-endian fields of a wire buffer: the readers and the writers that they undo. */
module Bytes {
  import opened Words

  type Bytes = seq<u8>

  /** The number a run of bytes spells, most significant first. */
  function FromBE(s: Bytes): nat {
    if s == [] then 0 else 256 * FromBE(s[..|s| - 1]) + s[|s| - 1]
  }

  /** `n` bytes that spell `v` modulo 256^n. */
  function ToBE(v: nat, n: nat): (s: Bytes)
    ensures |s| == n
  {
    if n == 0 then [] else ToBE(v / 256, n - 1) + [v % 256]
  }

  /** `v >> 8 * j` */
  function ShiftedRight(v: nat, j: nat): nat {
    if j == 0 then v else ShiftedRight(v / 256, j - 1)
  }

  /** The byte with `j` more after it is the lowest byte of the number shifted right by `j` bytes. */
  lemma {:induction false} ByteAt(v: nat, n: nat, j: nat)
    requires j < n
    ensures ToBE(v, n)[n - 1 - j] == ShiftedRight(v, j) % 256
  {
    if j > 0 {
      ByteAt(v / 256, n - 1, j - 1);
    }
  }

  function Power256(n: nat): (p: nat)
    ensures p > 0
  {
    if n == 0 then 1 else 256 * Power256(n - 1)
  }

  lemma {:induction false} FromBEBound(s: Bytes)
    ensures FromBE(s) < Power256(|s|)
  {
    if s != [] {
      FromBEBound(s[..|s| - 1]);
    }
  }

  /** Reading what was written gives the number back. */
  lemma {:induction false} ReadWritten(v: nat, n: nat)
    requires v < Power256(n)
    ensures FromBE(ToBE(v, n)) == v
  {
    if n > 0 {
      ReadWritten(v / 256, n - 1);
      var s := ToBE(v, n);
      assert s[..n - 1] == ToBE(v / 256, n - 1);
    }
  }

  /** Writing what was read gives the bytes back. */
  lemma {:induction false} WriteRead(s: Bytes)
    ensures ToBE(FromBE(s), |s|) == s
  {
    if s != [] {
      var t := s[..|s| - 1];
      WriteRead(t);
      assert s == t + [s[|s| - 1]];
    }
  }

  lemma Powers()
    ensures Power256(2) == 0x1_0000
    ensures Power256(4) == TWO_32
    ensures Power256(8) == TWO_64
  {
    assert Power256(1) == 256;
    assert Power256(3) == 0x100_0000;
    assert Power256(5) == 0x100_0000_0000 && Power256(6) == 0x1_0000_0000_0000;
    assert Power256(7) == 0x100_0000_0000_0000;
  }

  function Be16(p: Bytes, at: nat): u16
    requires at + 2 <= |p|
  {
    FromBEBound(p[at..at + 2]);
    Powers();
    FromBE(p[at..at + 2])
  }

  function Be32(p: Bytes, at: nat): u32
    requires at + 4 <= |p|
  {
    FromBEBound(p[at..at + 4]);
    Powers();
    FromBE(p[at..at + 4])
  }

  function Be64(p: Bytes, at: nat): u64
    requires at + 8 <= |p|
  {
    FromBEBound(p[at..at + 8]);
    Powers();
    FromBE(p[at..at + 8])
  }

  /** The loop behind every reader: shift the accumulator left by a byte and or the next byte in. */
  method ReadBE(p: Bytes, at: nat, width: nat) returns (res: nat)
    requires at + width <= |p|
    ensures res == FromBE(p[at..at + width])
  {
    res := 0;
    for i := 0 to width
      invariant res == FromBE(p[at..at + i])
    {
      assert p[at..at + i + 1][..i] == p[at..at + i];
      res := 256 * res + p[at + i];
    }
  }

  /** Writes `n` bytes of `v` at `at`, last byte first. */
  method PutBE(out: array<u8>, at: nat, v: nat, n: nat)
    requires at + n <= out.Length
    modifies out
    ensures out[..] == old(out[..at]) + ToBE(v, n) + old(out[at + n..])
  {
    var rest: nat := v;
    var i: nat := n;
    while i > 0
      invariant i <= n
      invariant ToBE(v, n) == ToBE(rest, i) + out[at + i..at + n]
      invariant out[..at] == old(out[..at]) && out[at + n..] == old(out[at + n..])
    {
      i := i - 1;
      ghost var tail := out[at + i + 1..at + n];
      out[at + i] := rest % 256;
      assert out[at + i..at + n] == [rest % 256] + tail;
      assert ToBE(rest, i + 1) == ToBE(rest / 256, i) + [rest % 256];
      rest := rest / 256;
    }
    assert out[..] == out[..at] + out[at..at + n] + out[at + n..];
  }
}
