/**
 The header, its agreement with GetUncompressedSize (cx_Uncompression.cpp), the round trip of whole streams, and the
 fact that the item forms cover every byte string exactly once.
 */
module LzRoundTrip {
  import opened Bytes
  import opened LzSpec
  import opened LzFormat
  import opened LzStreaming
  import opened Words

  /** The 24-bit size field. */
  function Read24Le(p: seq<Byte>): nat
    requires |p| >= 4
  {
    Digit(p, 1) + Digit(p, 2) * 0x100 + Digit(p, 3) * 0x1_0000
  }

  /** The pieces of a header that can be read: its second half is only there if the 24-bit size is 0. */
  predicate HasHeader(p: seq<Byte>) {
    |p| >= 4 && (p[1] == p[2] == p[3] == 0 ==> |p| >= 8)
  }

  function GetUncompressedSize(p: seq<Byte>): (size: nat)
    requires HasHeader(p)
  {
    var size := Read32Le(p, 0) / 0x100;
    if size == 0 then Read32Le(p, 4) else size
  }

  function HeaderLength(p: seq<Byte>): nat
    requires HasHeader(p)
  {
    if p[1] == p[2] == p[3] == 0 then 8 else 4
  }

  /** The state after a whole header. */
  function AfterHeader(force: int, format: Byte, size: int): LzState {
    Clip(Init(force).(headerSize := 0, exFormat := format, destCount := size))
  }

  // One byte of a size field whose first k bytes are in destCount already; `unit` is 256 to the power of k.
  lemma SizeByteStep(s: LzState, b: Byte, unit: nat)
    requires Ok(s) && 1 <= s.headerSize <= 7 && unit == Pow256(SizeBytesRead(s.headerSize))
    requires s.headerSize == 5 ==> s.destCount + b * unit == 0
    ensures Step(s, b) == var t := s.(headerSize := s.headerSize - 1, destCount := ToS32(s.destCount + b * unit));
                          More(if s.headerSize == 1 then Clip(t) else t)
  {
  }

  lemma FirstByteStep(force: int, b: Byte)
    requires b / 16 == 1 && b % 16 <= 1
    ensures Step(Init(force), b) == More(Init(force).(headerSize := 7, exFormat := b % 16))
  {
  }

  lemma ToS32Small(x: nat)
    requires x < 0x8000_0000
    ensures ToS32(x) == x
  {
  }

  lemma Pow256Values()
    ensures Pow256(0) == 1 && Pow256(1) == 0x100 && Pow256(2) == 0x1_0000 && Pow256(3) == 0x100_0000
  {
  }

  /** The first half of the header, up to its last byte. */
  lemma FirstBytes(force: int, p: seq<Byte>)
    requires |p| >= 3 && p[0] / 16 == 1 && p[0] % 16 <= 1
    ensures var s := Init(force).(headerSize := 5, exFormat := p[0] % 16,
                                  destCount := Digit(p, 1) + Digit(p, 2) * 0x100);
            Ok(s) && Run(Init(force), p) == Run(s, p[3..]) && Unread(Init(force), p) == Unread(s, p[3..])
  {
    hide Run, Unread, Step, Pow256, ToS32;
    assert p[0..] == p;
    ToS32Small(Digit(p, 1));
    ToS32Small(Digit(p, 1) + Digit(p, 2) * 0x100);
    var s0 := Init(force);
    var s1 := s0.(headerSize := 7, exFormat := p[0] % 16);
    var s2 := s1.(headerSize := 6, destCount := Digit(p, 1));
    Pow256Values();
    FirstByteStep(force, p[0]);
    Advance(s0, p, 0);
    SizeByteStep(s1, p[1], 1);
    Advance(s1, p, 1);
    SizeByteStep(s2, p[2], 0x100);
    Advance(s2, p, 2);
  }

  /** The first half of the header. */
  lemma FirstHalf(force: int, p: seq<Byte>)
    requires HasHeader(p) && p[0] / 16 == 1 && p[0] % 16 <= 1
    ensures var s := if Read24Le(p) == 0 then Init(force).(headerSize := 4, exFormat := p[0] % 16)
                     else AfterHeader(force, p[0] % 16, Read24Le(p));
            Run(Init(force), p) == Run(s, p[4..]) && Unread(Init(force), p) == Unread(s, p[4..])
  {
    hide Run, Unread, Step, Pow256, ToS32;
    var s := Init(force).(headerSize := 5, exFormat := p[0] % 16, destCount := Digit(p, 1) + Digit(p, 2) * 0x100);
    FirstBytes(force, p);
    LastOfFirstHalf(s, p[3]);
    Advance(s, p, 3);
  }

  lemma LastOfFirstHalf(s: LzState, b: Byte)
    requires Ok(s) && s.headerSize == 5
    ensures var t := s.(destCount := s.destCount + Digit([b], 0) * 0x1_0000);
            Step(s, b) == More(if t.destCount == 0 then t.(headerSize := 4) else Clip(t.(headerSize := 0)))
  {
    Pow256Values();
  }

  /** The second half, read when the 24-bit size is 0. */
  lemma SecondHalf(force: int, p: seq<Byte>)
    requires HasHeader(p) && p[0] / 16 == 1 && p[0] % 16 <= 1 && Read24Le(p) == 0
    ensures var s, t := Init(force).(headerSize := 4, exFormat := p[0] % 16),
                        AfterHeader(force, p[0] % 16, ToS32(Read32Le(p, 4)));
            Run(s, p[4..]) == Run(t, p[8..]) && Unread(s, p[4..]) == Unread(t, p[8..])
  {
    hide Run, Unread, Step, Pow256, ToS32;
    ToS32Small(Digit(p, 4));
    ToS32Small(Digit(p, 4) + Digit(p, 5) * 0x100);
    ToS32Small(Digit(p, 4) + Digit(p, 5) * 0x100 + Digit(p, 6) * 0x1_0000);
    var s4 := Init(force).(headerSize := 4, exFormat := p[0] % 16);
    var s5 := s4.(headerSize := 3, destCount := Digit(p, 4));
    var s6 := s5.(headerSize := 2, destCount := Digit(p, 4) + Digit(p, 5) * 0x100);
    var s7 := s6.(headerSize := 1, destCount := Digit(p, 4) + Digit(p, 5) * 0x100 + Digit(p, 6) * 0x1_0000);
    Pow256Values();
    SizeByteStep(s4, p[4], 1);
    Advance(s4, p, 4);
    SizeByteStep(s5, p[5], 0x100);
    Advance(s5, p, 5);
    SizeByteStep(s6, p[6], 0x1_0000);
    Advance(s6, p, 6);
    SizeByteStep(s7, p[7], 0x100_0000);
    Advance(s7, p, 7);
  }

  /**
   The streaming decoder and GetUncompressedSize read the same size from a header: the same number below 2^31, and
   its 32-bit signed reading from there on.
   */
  lemma HeaderAgrees(force: int, p: seq<Byte>)
    requires HasHeader(p) && p[0] / 16 == 1 && p[0] % 16 <= 1
    ensures var s, rest := AfterHeader(force, p[0] % 16, ToS32(GetUncompressedSize(p))), p[HeaderLength(p)..];
            Run(Init(force), p) == Run(s, rest) && Unread(Init(force), p) == Unread(s, rest)
    ensures GetUncompressedSize(p) < 0x8000_0000 ==> ToS32(GetUncompressedSize(p)) == GetUncompressedSize(p)
  {
    hide Run, Unread;
    assert Read32Le(p, 0) / 0x100 == Read24Le(p);
    FirstHalf(force, p);
    if Read24Le(p) == 0 {
      SecondHalf(force, p);
    }
  }

  /** How much of `size` bytes a forced size leaves wanted. */
  function Wanted(force: int, size: int): int {
    if 0 < force < size then force else size
  }

  /**
   Size conservation: from the end of the header on, bytes written and bytes still to be written are together what the
   header declares, read as a signed number, or what is wanted of it.
   */
  lemma DeclaredSizeConserved(force: int, p: seq<Byte>)
    requires HasHeader(p) && p[0] / 16 == 1 && p[0] % 16 <= 1 && !Run(Init(force), p).Outside?
    ensures var o := Run(Init(force), p);
            |o.st.out| + o.st.destCount == Wanted(force, ToS32(GetUncompressedSize(p)))
  {
    hide Run;
    HeaderAgrees(force, p);
    SizeConserved(AfterHeader(force, p[0] % 16, ToS32(GetUncompressedSize(p))), p[HeaderLength(p)..]);
  }

  /**
   Round trip: decoding the serialization of a token list writes exactly what the list stands for, or the beginning
   of it that a forced size asks for. Without a forced size all of it is read.
   */
  lemma RoundTrip(format: nat, ts: seq<Token>, force: int)
    requires format <= 1 && WellFormed(format, ts, 0) && |Expand(format, [], ts)| < 0x8000_0000
    ensures var o := Run(Init(force), Serialize(format, ts));
            var whole := Expand(format, [], ts);
            o.More? && o.st.destCount == 0 && o.st.headerSize == 0 && o.st.out == whole[..Wanted(force, |whole|)]
    ensures force == 0 ==> !Trails(Init(force), Serialize(format, ts), 1)
  {
    hide Run, Unread, Trails;
    var whole := Expand(format, [], ts);
    var header := EncodeHeader(format, |whole|);
    var p := Serialize(format, ts);
    assert p[|header|..] == EncodeItems(format, ts, 0, 0);
    HeaderReads(format, |whole|, p);
    HeaderAgrees(force, p);
    ItemsDecode(AfterHeader(force, format, |whole|), ts);
    UnreadTrails(Init(force), p, 1);
  }

  /**
   A call on a new context. What is returned while output is owed is how much of the declared size, or of the forced
   one, is missing behind what was written; at the end it is 0, or -3 when more than 32 bytes trail.
   */
  method Decode(dest: array<Byte>, force: int, p: seq<Byte>) returns (r: int, c: UncompContextLZ)
    requires HasHeader(p) && p[0] in {0x10, 0x11} && !Run(Init(force), p).Outside?
    requires |Run(Init(force), p).st.out| <= dest.Length
    modifies dest
    ensures c.dest == dest && c.destp <= dest.Length && dest[..c.destp] == Run(Init(force), p).st.out
    ensures Run(Init(force), p).Failed? <==> r == -4 && c.destCount > 0
    ensures var size := Wanted(force, ToS32(GetUncompressedSize(p)));
            Run(Init(force), p).More? && size > 0 ==>
              && c.destp <= size && (r > 0 <==> c.destp < size) && (r > 0 ==> r == size - c.destp)
              && (r == -3 <==> c.destp == size && force == 0 && Trails(Init(force), p, 33))
              && (r == 0 <==> c.destp == size && !(force == 0 && Trails(Init(force), p, 33)))
    ensures forall k :: c.destp <= k < dest.Length ==> dest[k] == old(dest[k])
  {
    hide Run, Trails;
    FewerTrail(Init(force), p);
    DeclaredSizeConserved(force, p);
    HeaderIsRead(force, p);
    SizeConserved(Init(force), p);
    c := new UncompContextLZ(dest);
    c.forceDestCount := force;
    r := c.ReadUncompLZ(p);
  }

  lemma FewerTrail(s: LzState, p: seq<Byte>)
    requires Ok(s)
    ensures Trails(s, p, 33) ==> Trails(s, p, 1)
  {
    hide Run;
    if Trails(s, p, 33) {
      var a := p[..|p| - 33];
      RunSplit(s, a, p[|p| - 33..|p| - 1]);
      assert p[..|p| - 1] == a + p[|p| - 33..|p| - 1] && p[|p| - 33..|p| - 1][0..] == p[|p| - 33..|p| - 1];
      Stops(Run(s, a).st, p[|p| - 33..|p| - 1], 0);
    }
  }

  /** Behind a whole header the context is not waiting for one, and a positive size does not become negative. */
  lemma HeaderIsRead(force: int, p: seq<Byte>)
    requires HasHeader(p) && p[0] / 16 == 1 && p[0] % 16 <= 1 && !Run(Init(force), p).Outside?
    ensures var o := Run(Init(force), p);
            && o.st.headerSize == 0
            && (o.More? && Wanted(force, ToS32(GetUncompressedSize(p))) >= 0 ==> o.st.destCount >= 0)
  {
    hide Run;
    var s := AfterHeader(force, p[0] % 16, ToS32(GetUncompressedSize(p)));
    HeaderAgrees(force, p);
    if Run(Init(force), p).More? {
      RunKeepsSign(s, p[HeaderLength(p)..]);
    } else {
      RunKeepsBegun(s, p[HeaderLength(p)..]);
    }
  }

  /** Round trip with one call on a new context: the list's expansion is in the destination, and the answer is 0. */
  method DecodeSerialized(dest: array<Byte>, force: int, format: nat, ts: seq<Token>) returns (r: int, n: nat)
    requires format <= 1 && WellFormed(format, ts, 0) && |Expand(format, [], ts)| < 0x8000_0000
    requires Wanted(force, |Expand(format, [], ts)|) <= dest.Length
    modifies dest
    ensures var whole := Expand(format, [], ts);
            r == 0 && n == Wanted(force, |whole|) && dest[..n] == whole[..n]
    ensures forall k :: n <= k < dest.Length ==> dest[k] == old(dest[k])
  {
    hide Run, Trails;
    var p := Serialize(format, ts);
    RoundTrip(format, ts, force);
    var c := new UncompContextLZ(dest);
    c.forceDestCount := force;
    FewerTrail(Init(force), p);
    SizeConserved(Init(force), p);
    r := c.ReadUncompLZ(p);
    n := c.destp;
  }

  /** The header of a serialization declares the size it was given. */
  lemma HeaderReads(format: nat, size: nat, p: seq<Byte>)
    requires format <= 1 && size < 0x1_0000_0000 && EncodeHeader(format, size) <= p
    ensures HasHeader(p) && p[0] / 16 == 1 && p[0] % 16 == format
    ensures HeaderLength(p) == |EncodeHeader(format, size)| && GetUncompressedSize(p) == size
  {
    var h := EncodeHeader(format, size);
    assert forall k :: 0 <= k < |h| ==> p[k] == h[k];
    var q := size / 0x100;
    var r := size / 0x1_0000;
    assert q / 0x100 == r && r / 0x100 == size / 0x100_0000;
    assert size == size % 0x100 + q % 0x100 * 0x100 + r % 0x100 * 0x1_0000 + r / 0x100 * 0x100_0000;
  }

  /** How many bytes the match has that begins with these, by the first of them. */
  function ItemLength(format: nat, bs: seq<Byte>): nat
    requires bs != []
  {
    if format == 0 || Digit(bs, 0) / 16 >= 2 then 2 else if Digit(bs, 0) / 16 == 0 then 3 else 4
  }

  /** The length and the offset of a match, worked out from its bytes alone. */
  function ReadItem(format: nat, bs: seq<Byte>): (nat, nat)
    requires format <= 1 && bs != [] && |bs| >= ItemLength(format, bs)
  {
    var a, b := Digit(bs, 0) / 16, Digit(bs, 0) % 16;
    if format == 0 then (a + 3, b * 256 + Digit(bs, 1) + 1)
    else if a >= 2 then (a + 1, b * 256 + Digit(bs, 1) + 1)
    else if a == 0 then (b * 16 + Digit(bs, 1) / 16 + 17, Digit(bs, 1) % 16 * 256 + Digit(bs, 2) + 1)
    else (b * 4096 + Digit(bs, 1) * 16 + Digit(bs, 2) / 16 + 273, Digit(bs, 2) % 16 * 256 + Digit(bs, 3) + 1)
  }

  /** No gap: whatever the bytes, they begin with a match of one of the forms, with a length and offset in range. */
  lemma EveryItemIsAMatch(format: nat, bs: seq<Byte>)
    requires format <= 1 && bs != [] && |bs| >= ItemLength(format, bs)
    ensures var (len, offset) := ReadItem(format, bs);
            && 3 <= len <= MaxMatch(format) && 1 <= offset <= 4096
            && |EncodeMatch(format, len, offset)| == ItemLength(format, bs) && EncodeMatch(format, len, offset) <= bs
  {
    var a, b := Digit(bs, 0) / 16, Digit(bs, 0) % 16;
    if format == 0 || a >= 2 {
      HighLow(b, Digit(bs, 1));
    } else if a == 0 {
      EveryMiddleItemIsAMatch(bs);
    } else {
      EveryLongItemIsAMatch(bs);
    }
  }

  lemma EveryMiddleItemIsAMatch(bs: seq<Byte>)
    requires |bs| >= 3 && bs[0] / 16 == 0
    ensures var (len, offset) := ReadItem(1, bs);
            && 17 <= len <= 272 && 1 <= offset <= 4096
            && EncodeMatch(1, len, offset) <= bs
  {
    var b, c, d := Digit(bs, 0) % 16, Digit(bs, 1) / 16, Digit(bs, 1) % 16;
    HighLow(d, Digit(bs, 2));
    Nibble(b, c);
  }

  lemma EveryLongItemIsAMatch(bs: seq<Byte>)
    requires |bs| >= 4 && bs[0] / 16 == 1
    ensures var (len, offset) := ReadItem(1, bs);
            && 273 <= len <= 65808 && 1 <= offset <= 4096
            && EncodeMatch(1, len, offset) <= bs
  {
    var b, c, d, e := Digit(bs, 0) % 16, Digit(bs, 1), Digit(bs, 2) / 16, Digit(bs, 2) % 16;
    HighLow(e, Digit(bs, 3));
    ThreeParts(b, c, d);
    assert EncodeMatch(1, (b * 256 + c) * 16 + d + 273, e * 256 + Digit(bs, 3) + 1)
        == [16 + b, c, d * 16 + e, Digit(bs, 3)];
  }

  lemma ThreeParts(b: nat, c: nat, d: nat)
    requires c < 256 && d < 16
    ensures var n := (b * 256 + c) * 16 + d;
            n / 4096 == b && n / 16 % 256 == c && n % 16 == d
  {
    Nibble(b * 256 + c, d);
    var n := (b * 256 + c) * 16 + d;
    assert n / 4096 == n / 16 / 256;
  }

  lemma HighLow(high: nat, low: nat)
    requires high < 16 && low < 256
    ensures (high * 256 + low) / 256 == high && (high * 256 + low) % 256 == low
  {
  }

  /** No overlap: no byte string begins with two different matches. */
  lemma ItemsAreUnambiguous(format: nat, bs: seq<Byte>, len: nat, offset: nat)
    requires format <= 1 && 3 <= len <= MaxMatch(format) && 1 <= offset <= 4096
    requires EncodeMatch(format, len, offset) <= bs
    ensures bs != [] && |EncodeMatch(format, len, offset)| == ItemLength(format, bs)
    ensures ReadItem(format, bs) == (len, offset)
  {
    var x, high := EncodeMatch(format, len, offset), (offset - 1) / 256;
    assert forall k :: 0 <= k < |x| ==> bs[k] == x[k];
    assert offset == high * 256 + (offset - 1) % 256 + 1;
    if format == 0 {
      Nibble(len - 3, high);
    } else if len <= 16 {
      Nibble(len - 1, high);
    } else if len <= 272 {
      var n := len - 17;
      assert Digit(bs, 0) == n / 16 && Digit(bs, 1) == n % 16 * 16 + high;
      Nibble(n % 16, high);
    } else {
      LongItemsAreUnambiguous(bs, len, offset);
    }
  }

  lemma LongItemsAreUnambiguous(bs: seq<Byte>, len: nat, offset: nat)
    requires |bs| >= 4 && 273 <= len <= 65808 && 1 <= offset <= 4096 && bs[..4] == EncodeMatch(1, len, offset)
    ensures ItemLength(1, bs) == 4 && ReadItem(1, bs) == (len, offset)
  {
    var n, high := len - 273, (offset - 1) / 256;
    var b, c, d := n / 4096, n / 16 % 256, n % 16;
    assert bs[..4] == [16 + b, c, d * 16 + high, (offset - 1) % 256];
    assert Digit(bs, 0) == bs[..4][0] && Digit(bs, 1) == bs[..4][1];
    assert Digit(bs, 2) == bs[..4][2] && Digit(bs, 3) == bs[..4][3];
    assert n == b * 4096 + c * 16 + d;
    Nibble(d, high);
    Nibble(1, b);
  }
}
