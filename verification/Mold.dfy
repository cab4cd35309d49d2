/** MoldUDP64 packet headers. */
module Mold {
  import opened Words
  import opened Bytes

  const SESSION_SIZE: nat := 10
  const HEADER_SIZE: nat := 20
  const END_OF_SESSION: u16 := 0xFFFF
  const HEARTBEAT: u16 := 0

  type Session = s: seq<u8> | |s| == SESSION_SIZE witness [0, 0, 0, 0, 0, 0, 0, 0, 0, 0]

  datatype Header = Header(session: Session, sequence: u64, count: u16)

  function Encoded(h: Header): (s: Bytes)
    ensures |s| == HEADER_SIZE
  {
    h.session + ToBE(h.sequence, 8) + ToBE(h.count, 2)
  }

  function DecodeHeader(p: Bytes): Header
    requires |p| >= HEADER_SIZE
  {
    Header(p[..SESSION_SIZE], Be64(p, SESSION_SIZE), Be16(p, SESSION_SIZE + 8))
  }

  /** A header written in front of any blocks is read back. */
  lemma HeaderRoundTrip(h: Header, body: Bytes)
    ensures DecodeHeader(Encoded(h) + body) == h
  {
    var p := Encoded(h) + body;
    assert p[..SESSION_SIZE] == h.session;
    assert p[SESSION_SIZE..SESSION_SIZE + 8] == ToBE(h.sequence, 8);
    assert p[SESSION_SIZE + 8..SESSION_SIZE + 10] == ToBE(h.count, 2);
    Powers();
    ReadWritten(h.sequence, 8);
    ReadWritten(h.count, 2);
  }

  /** A header read from any packet is written back as it was. */
  lemma HeaderBytes(p: Bytes)
    requires |p| >= HEADER_SIZE
    ensures Encoded(DecodeHeader(p)) == p[..HEADER_SIZE]
  {
    WriteRead(p[SESSION_SIZE..SESSION_SIZE + 8]);
    WriteRead(p[SESSION_SIZE + 8..SESSION_SIZE + 10]);
    assert p[..HEADER_SIZE] == p[..SESSION_SIZE] + p[SESSION_SIZE..SESSION_SIZE + 8] + p[SESSION_SIZE + 8..HEADER_SIZE];
  }

  /** Where the fields of a header lie. */
  lemma HeaderLayout(p: Bytes)
    requires |p| >= HEADER_SIZE
    ensures var h := DecodeHeader(p);
      p[..10] == h.session && p[10..18] == ToBE(h.sequence, 8) && p[18..20] == ToBE(h.count, 2)
  {
    WriteRead(p[10..18]);
    WriteRead(p[18..20]);
  }

  /** Writes the header at the front of a buffer and leaves the rest. */
  method EncodeHeader(h: Header, out: array<u8>)
    requires out.Length >= HEADER_SIZE
    modifies out
    ensures out[..HEADER_SIZE] == Encoded(h)
    ensures out[..10] == h.session && out[10..18] == ToBE(h.sequence, 8) && out[18..20] == ToBE(h.count, 2)
    ensures out[HEADER_SIZE..] == old(out[HEADER_SIZE..])
  {
    for i := 0 to SESSION_SIZE
      invariant out[..i] == h.session[..i]
      invariant out[SESSION_SIZE..] == old(out[SESSION_SIZE..])
    {
      out[i] := h.session[i];
    }
    PutBE(out, SESSION_SIZE, h.sequence, 8);
    PutBE(out, SESSION_SIZE + 8, h.count, 2);
  }

  /** Reads a header field by field. */
  method ReadHeader(p: Bytes) returns (h: Header)
    requires |p| >= HEADER_SIZE
    ensures h == DecodeHeader(p)
    ensures p[..10] == h.session && p[10..18] == ToBE(h.sequence, 8) && p[18..20] == ToBE(h.count, 2)
  {
    HeaderLayout(p);
    var session: seq<u8> := [];
    for i := 0 to SESSION_SIZE
      invariant session == p[..i]
    {
      session := session + [p[i]];
    }
    Powers();
    FromBEBound(p[SESSION_SIZE..SESSION_SIZE + 8]);
    FromBEBound(p[SESSION_SIZE + 8..SESSION_SIZE + 10]);
    var sequence := ReadBE(p, SESSION_SIZE, 8);
    var count := ReadBE(p, SESSION_SIZE + 8, 2);
    h := Header(session, sequence, count);
  }

  /** Space pads a short id and truncates a long one. */
  method MakeSession(text: Bytes) returns (s: Session)
    ensures forall i | 0 <= i < SESSION_SIZE :: s[i] == if InText(text, i) then text[i] else ' ' as int
  {
    var out: seq<u8> := seq(SESSION_SIZE, _ => ' ' as int);
    var i := 0;
    while i < SESSION_SIZE && i < |text| && text[i] != 0
      invariant |out| == SESSION_SIZE && i <= SESSION_SIZE && i <= |text|
      invariant forall j | 0 <= j < i :: text[j] != 0
      invariant forall j | 0 <= j < SESSION_SIZE :: out[j] == if j < i then text[j] else ' ' as int
    {
      out := out[i := text[i]];
      i := i + 1;
    }
    s := out;
  }

  /** Position `i` comes before the terminator of the text. */
  predicate InText(text: Bytes, i: nat) {
    i < |text| && forall j | 0 <= j <= i :: text[j] != 0
  }
}
