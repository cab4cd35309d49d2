/** ITCH 5.0 messages: which types are named, how long they are, and the fields that move a book. */
module Itch {
  import opened Words
  import opened Bytes
  import opened Ladder

  predicate IsKnown(t: u8) {
    (t as char) in "SRHYLAFECXDUPQB"
  }

  /** Message length including the type byte; 0 for a type that is not named. */
  function ExpectedLength(t: u8): nat {
    match t as char
    case 'S' => 12
    case 'R' => 39
    case 'H' => 25
    case 'Y' => 20
    case 'L' => 26
    case 'A' => 36
    case 'F' => 40
    case 'E' => 31
    case 'C' => 36
    case 'X' => 23
    case 'D' => 19
    case 'U' => 35
    case 'P' => 44
    case 'Q' => 40
    case 'B' => 19
    case _ => 0
  }

  /** The types that move a book. */
  predicate MovesBook(t: u8) {
    (t as char) in "AFECXDU"
  }

  /** Long enough for the fields its type promises; the decoders read without a length check. */
  predicate Readable(m: Bytes) {
    m != [] && (IsKnown(m[0]) ==> |m| >= ExpectedLength(m[0]))
  }

  datatype Action =
    | Add(ref: u64, side: Side, shares: u32, price: u32)
    | Execute(ref: u64, shares: u32)
    | Cancel(ref: u64, shares: u32)
    | Delete(ref: u64)
    | Replace(original: u64, ref: u64, shares: u32, price: u32)

  function ToSide(c: u8): Side {
    if c as char == 'S' then Sell else Buy
  }

  function Locate(m: Bytes): u16
    requires |m| >= 11
  {
    Be16(m, 1)
  }

  function Stock(m: Bytes): Bytes
    requires |m| >= 19
  {
    m[11..19]
  }

  function ActionOf(m: Bytes): Action
    requires Readable(m) && MovesBook(m[0])
  {
    match m[0] as char
    case 'A' => Add(Be64(m, 11), ToSide(m[19]), Be32(m, 20), Be32(m, 32))
    case 'F' => Add(Be64(m, 11), ToSide(m[19]), Be32(m, 20), Be32(m, 32))
    case 'E' => Execute(Be64(m, 11), Be32(m, 19))
    case 'C' => Execute(Be64(m, 11), Be32(m, 19))
    case 'X' => Cancel(Be64(m, 11), Be32(m, 19))
    case 'D' => Delete(Be64(m, 11))
    case _ => Replace(Be64(m, 11), Be64(m, 19), Be32(m, 27), Be32(m, 31))
  }

  // ---- what the bytes say ----

  /** The number `v` stands at `at`, in `n` bytes, most significant first. */
  predicate Spells(m: Bytes, at: nat, n: nat, v: nat) {
    at + n <= |m| && m[at..at + n] == ToBE(v, n)
  }

  lemma Spelled(m: Bytes, at: nat, n: nat, v: nat)
    requires at + n <= |m| && v < Power256(n)
    ensures Spells(m, at, n, v) <==> FromBE(m[at..at + n]) == v
  {
    ReadWritten(v, n);
    WriteRead(m[at..at + n]);
  }

  /** The message, field by field as it lies on the wire, asks for `a`. */
  predicate Says(m: Bytes, a: Action)
    requires m != []
  {
    match a
    case Add(ref, side, shares, price) =>
      && (m[0] == 'A' as int || m[0] == 'F' as int) && |m| >= (if m[0] == 'A' as int then 36 else 40)
      && Spells(m, 11, 8, ref) && (side == Sell <==> m[19] == 'S' as int)
      && Spells(m, 20, 4, shares) && Spells(m, 32, 4, price)
    case Execute(ref, shares) =>
      && (m[0] == 'E' as int || m[0] == 'C' as int) && |m| >= (if m[0] == 'E' as int then 31 else 36)
      && Spells(m, 11, 8, ref) && Spells(m, 19, 4, shares)
    case Cancel(ref, shares) =>
      m[0] == 'X' as int && |m| >= 23 && Spells(m, 11, 8, ref) && Spells(m, 19, 4, shares)
    case Delete(ref) =>
      m[0] == 'D' as int && |m| >= 19 && Spells(m, 11, 8, ref)
    case Replace(original, ref, shares, price) =>
      && m[0] == 'U' as int && |m| >= 35
      && Spells(m, 11, 8, original) && Spells(m, 19, 8, ref) && Spells(m, 27, 4, shares) && Spells(m, 31, 4, price)
  }

  lemma Field32(m: Bytes, at: nat, v: u32)
    requires at + 4 <= |m|
    ensures Spells(m, at, 4, v) <==> Be32(m, at) == v
  {
    Powers();
    Spelled(m, at, 4, v);
  }

  lemma Field64(m: Bytes, at: nat, v: u64)
    requires at + 8 <= |m|
    ensures Spells(m, at, 8, v) <==> Be64(m, at) == v
  {
    Powers();
    Spelled(m, at, 8, v);
  }

  /** A message moves a book as its bytes say, and in no other way. */
  lemma ReadAsSaid(m: Bytes, a: Action)
    requires Readable(m)
    ensures Says(m, a) <==> MovesBook(m[0]) && ActionOf(m) == a
  {
    if |m| >= 19 {
      Field64(m, 11, a.ref);
    }
    match a
    case Add(ref, _, shares, price) =>
      if |m| >= 36 {
        Field32(m, 20, shares);
        Field32(m, 32, price);
      }
    case Execute(_, shares) =>
      if |m| >= 23 {
        Field32(m, 19, shares);
      }
    case Cancel(_, shares) =>
      if |m| >= 23 {
        Field32(m, 19, shares);
      }
    case Delete(_) =>
    case Replace(original, ref, shares, price) =>
      if |m| >= 35 {
        Field64(m, 11, original);
        Field64(m, 19, ref);
        Field32(m, 27, shares);
        Field32(m, 31, price);
      }
  }

  /** The locate and the stock symbol, as they lie on the wire. */
  lemma HeaderSaid(m: Bytes)
    requires |m| >= 11
    ensures Spells(m, 1, 2, Locate(m))
    ensures |m| >= 19 ==> |Stock(m)| == 8 && forall i | 0 <= i < 8 :: Stock(m)[i] == m[11 + i]
  {
    WriteRead(m[1..3]);
  }
}
