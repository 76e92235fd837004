/**
 The compressed format that cx_StreamingUncompression.cpp reads, written as a serializer of tokens, and the round
 trip: the decoder turns the serialization of a token list into what the list stands for.
 */
module LzFormat {
  import opened Bytes
  import opened LzSpec

  datatype Token = Literal(b: Byte) | Match(len: nat, offset: nat)

  function MaxMatch(format: nat): nat {
    if format == 0 then 18 else 65808
  }

  /** The token can follow `written` bytes of output in this format. */
  predicate Encodable(format: nat, t: Token, written: nat) {
    t.Match? ==> 3 <= t.len <= MaxMatch(format) && 1 <= t.offset <= 4096 && t.offset <= written
  }

  function Width(t: Token): nat {
    if t.Literal? then 1 else t.len
  }

  /** What the list stands for: each literal is appended, each match repeats earlier output, overlaps included. */
  function ExpandOne(out: seq<Byte>, t: Token): (r: seq<Byte>)
    requires t.Match? ==> 1 <= t.offset <= |out|
    ensures |r| == |out| + Width(t)
  {
    match t
    case Literal(b) => out + [b]
    case Match(len, offset) => CopyBack(out, offset, len)
  }

  predicate WellFormed(format: nat, ts: seq<Token>, written: nat)
    decreases |ts|
  {
    ts == [] || (Encodable(format, ts[0], written) && WellFormed(format, ts[1..], written + Width(ts[0])))
  }

  function Expand(format: nat, out: seq<Byte>, ts: seq<Token>): (r: seq<Byte>)
    requires WellFormed(format, ts, |out|)
    ensures |out| <= |r|
    decreases |ts|
  {
    if ts == [] then out else Expand(format, ExpandOne(out, ts[0]), ts[1..])
  }

  /** The length field and the offset of a match. Format 1 has three length forms. */
  function EncodeMatch(format: nat, len: nat, offset: nat): (r: seq<Byte>)
    requires format <= 1 && 3 <= len <= MaxMatch(format) && 1 <= offset <= 4096
    ensures |r| == if format == 0 || len <= 16 then 2 else if len <= 272 then 3 else 4
  {
    var high, low := (offset - 1) / 256, (offset - 1) % 256;
    if format == 0 then [(len - 3) * 16 + high, low]
    else if len <= 16 then [(len - 1) * 16 + high, low]
    else if len <= 272 then
      var n := len - 17;
      [n / 16, n % 16 * 16 + high, low]
    else
      var n := len - 273;
      [16 + n / 4096, n / 16 % 256, n % 16 * 16 + high, low]
  }

  function EncodeToken(format: nat, t: Token): seq<Byte>
    requires format <= 1 && Encodable(format, t, 4096)
  {
    match t
    case Literal(b) => [b]
    case Match(len, offset) => EncodeMatch(format, len, offset)
  }

  function Bit(ts: seq<Token>, i: nat, n: nat): int {
    if i < n && i < |ts| && ts[i].Match? then 1 else 0
  }

  /** The flag bits of the first `n` tokens, highest bit first; the bits after them are clear. */
  function Flags(ts: seq<Token>, n: nat): Byte {
    128 * Bit(ts, 0, n) + 64 * Bit(ts, 1, n) + 32 * Bit(ts, 2, n) + 16 * Bit(ts, 3, n)
    + 8 * Bit(ts, 4, n) + 4 * Bit(ts, 5, n) + 2 * Bit(ts, 6, n) + Bit(ts, 7, n)
  }

  /** The highest flag is the first token's, and shifting it out leaves the flags of the tokens after it. */
  lemma FlagsShift(ts: seq<Token>, n: nat)
    requires 0 < n <= 8 && ts != []
    ensures Flags(ts, n) >= 128 <==> ts[0].Match?
    ensures Flags(ts, n) * 2 % 256 == Flags(ts[1..], n - 1)
  {
    var rest, m := ts[1..], n - 1;
    assert Bit(ts, 1, n) == Bit(rest, 0, m) && Bit(ts, 2, n) == Bit(rest, 1, m) && Bit(ts, 3, n) == Bit(rest, 2, m);
    assert Bit(ts, 4, n) == Bit(rest, 3, m) && Bit(ts, 5, n) == Bit(rest, 4, m) && Bit(ts, 6, n) == Bit(rest, 5, m);
    assert Bit(ts, 7, n) == Bit(rest, 6, m) && Bit(rest, 7, m) == 0;
  }

  /** The items from here on; `left` of them are still spoken for by the last flag byte. */
  function EncodeItems(format: nat, ts: seq<Token>, written: nat, left: nat): seq<Byte>
    requires format <= 1 && WellFormed(format, ts, written) && left <= 8
    decreases |ts|, 8 - left
  {
    if ts == [] then []
    else if left == 0 then [Flags(ts, 8)] + EncodeItems(format, ts, written, 8)
    else EncodeToken(format, ts[0]) + EncodeItems(format, ts[1..], written + Width(ts[0]), left - 1)
  }

  /** The size goes in 24 bits if it fits there and is not 0, and otherwise in the 32 bits that follow 24 clear ones. */
  function EncodeHeader(format: nat, size: nat): seq<Byte>
    requires format <= 1 && size < 0x1_0000_0000
  {
    if 0 < size < 0x100_0000 then
      [16 + format, size % 256, size / 0x100 % 256, size / 0x1_0000]
    else
      [16 + format, 0, 0, 0, size % 256, size / 0x100 % 256, size / 0x1_0000 % 256, size / 0x100_0000]
  }

  function Serialize(format: nat, ts: seq<Token>): seq<Byte>
    requires format <= 1 && WellFormed(format, ts, 0) && |Expand(format, [], ts)| < 0x8000_0000
  {
    EncodeHeader(format, |Expand(format, [], ts)|) + EncodeItems(format, ts, 0, 0)
  }

  // ---- decoding one item ----

  /** The decoder is between two items of a format-`format` stream. */
  predicate AtItem(s: LzState, format: nat) {
    Ok(s) && s.headerSize == 0 && s.exFormat == format && s.lengthFlg == 3 && s.length == 0
  }

  lemma Nibble(q: int, r: int)
    requires 0 <= r < 16
    ensures (q * 16 + r) / 16 == q && (q * 16 + r) % 16 == r
  {
  }

  // The state after a whole length field: the length sits above the high four bits of the offset.
  function LengthRead(s: LzState, len: nat, offset: nat): LzState
    requires 1 <= offset
  {
    s.(length := len * 16 + (offset - 1) / 256, lengthFlg := 0)
  }

  ghost predicate AtMatch(s: LzState) {
    s.exFormat <= 1 && AtItem(s, s.exFormat) && s.flagIndex > 0 && s.flags >= 128 && s.destCount > 0
  }

  lemma ShortLengthDecodes(s: LzState, len: nat, offset: nat)
    requires AtMatch(s) && 3 <= len <= MaxMatch(s.exFormat) && 1 <= offset <= 4096 && (s.exFormat == 0 || len <= 16)
    ensures Step(s, EncodeMatch(s.exFormat, len, offset)[0]) == More(LengthRead(s, len, offset))
  {
    Nibble(if s.exFormat == 0 then len - 3 else len - 1, (offset - 1) / 256);
  }

  lemma MediumLengthDecodes(s: LzState, len: nat, offset: nat) returns (s1: LzState)
    requires AtMatch(s) && s.exFormat == 1 && 17 <= len <= 272 && 1 <= offset <= 4096
    ensures Ok(s1) && !Done(s1)
    ensures var bs := EncodeMatch(1, len, offset);
            Step(s, bs[0]) == More(s1) && Step(s1, bs[1]) == More(LengthRead(s, len, offset))
  {
    var n := len - 17;
    assert n / 16 / 16 == 0 && n / 16 % 16 == n / 16;
    s1 := s.(length := n / 16 * 0x100 + (0xF + 2) * 16, lengthFlg := 1);
  }

  lemma LongLengthDecodes(s: LzState, len: nat, offset: nat) returns (s1: LzState, s2: LzState)
    requires AtMatch(s) && s.exFormat == 1 && 273 <= len <= 65808 && 1 <= offset <= 4096
    ensures Ok(s1) && !Done(s1) && Ok(s2) && !Done(s2)
    ensures var bs := EncodeMatch(1, len, offset);
            && Step(s, bs[0]) == More(s1) && Step(s1, bs[1]) == More(s2)
            && Step(s2, bs[2]) == More(LengthRead(s, len, offset))
  {
    var n := len - 273;
    var a, b, c := n / 4096, n / 16 % 256, n % 16;
    assert n == a * 4096 + b * 16 + c;
    Nibble(1, a);
    s1 := s.(length := a * 0x1_0000 + (0xFF + 0xF + 3) * 16, lengthFlg := 2);
    s2 := s1.(length := s1.length + b * 0x100, lengthFlg := 1);
  }

  /** Reading a length field in any of its forms. */
  lemma LengthDecodes(s: LzState, len: nat, offset: nat)
    requires AtMatch(s) && 3 <= len <= MaxMatch(s.exFormat) && 1 <= offset <= 4096
    ensures var bs := EncodeMatch(s.exFormat, len, offset);
            && Run(s, bs) == Run(LengthRead(s, len, offset), bs[|bs| - 1..])
            && Unread(s, bs) == Unread(LengthRead(s, len, offset), bs[|bs| - 1..])
  {
    hide Run, Unread, Step, EncodeMatch;
    var bs := EncodeMatch(s.exFormat, len, offset);
    assert bs[0..] == bs;
    Advance(s, bs, 0);
    if s.exFormat == 0 || len <= 16 {
      ShortLengthDecodes(s, len, offset);
    } else if len <= 272 {
      var s1 := MediumLengthDecodes(s, len, offset);
      Advance(s1, bs, 1);
    } else {
      var s1, s2 := LongLengthDecodes(s, len, offset);
      Advance(s1, bs, 1);
      Advance(s2, bs, 2);
    }
  }

  lemma OffsetDecodes(s: LzState, t: Token)
    requires AtMatch(s) && t.Match? && Encodable(s.exFormat, t, |s.out|)
    requires t.len > s.destCount ==> s.forceDestCount > 0
    ensures var m := if t.len > s.destCount then s.destCount else t.len;
            OffsetStep(LengthRead(s, t.len, t.offset), (t.offset - 1) % 256)
            == More(NextFlag(s.(out := CopyBack(s.out, t.offset, m), destCount := s.destCount - m)))
  {
    Nibble(t.len, (t.offset - 1) / 256);
  }

  /** A match's bytes are read back as its length and offset, and the match is copied. */
  lemma MatchDecodes(s: LzState, t: Token)
    requires AtMatch(s) && t.Match? && Encodable(s.exFormat, t, |s.out|)
    requires t.len > s.destCount ==> s.forceDestCount > 0
    ensures var m := if t.len > s.destCount then s.destCount else t.len;
            Run(s, EncodeMatch(s.exFormat, t.len, t.offset))
            == More(NextFlag(s.(out := CopyBack(s.out, t.offset, m), destCount := s.destCount - m)))
    ensures Unread(s, EncodeMatch(s.exFormat, t.len, t.offset)) == 0
  {
    hide Run, Unread, OffsetStep;
    var bs := EncodeMatch(s.exFormat, t.len, t.offset);
    var s1 := LengthRead(s, t.len, t.offset);
    LengthDecodes(s, t.len, t.offset);
    OffsetDecodes(s, t);
    assert bs[|bs| - 1] == (t.offset - 1) % 256;
    Advance(s1, bs, |bs| - 1);
    Stops(Step(s1, bs[|bs| - 1]).st, bs, |bs|);
  }

  /** Without a forced size a match that is longer than what is still to be written is refused. */
  lemma MatchRejected(s: LzState, t: Token)
    requires AtMatch(s) && t.Match? && Encodable(s.exFormat, t, |s.out|)
    requires t.len > s.destCount && s.forceDestCount == 0
    ensures var o := Run(s, EncodeMatch(s.exFormat, t.len, t.offset));
            o.Failed? && o.code == -4 && o.st.out == s.out
  {
    hide Run, Unread;
    var bs := EncodeMatch(s.exFormat, t.len, t.offset);
    var s1 := LengthRead(s, t.len, t.offset);
    LengthDecodes(s, t.len, t.offset);
    Nibble(t.len, (t.offset - 1) / 256);
    Advance(s1, bs, |bs| - 1);
  }

  // ---- decoding a stream ----

  lemma {:induction false} CopyBackPrefix(out: seq<Byte>, offset: nat, m: nat, n: nat)
    requires 1 <= offset <= |out| && m <= n
    ensures CopyBack(out, offset, m) == CopyBack(out, offset, n)[..|out| + m]
    decreases n
  {
    if m == 0 {
      CopyBackMeaning(out, offset, n);
    } else {
      CopyBackPrefix(out + [out[|out| - offset]], offset, m - 1, n - 1);
    }
  }

  lemma {:induction false} ExpandKeeps(format: nat, out: seq<Byte>, ts: seq<Token>)
    requires WellFormed(format, ts, |out|)
    ensures out <= Expand(format, out, ts)
    decreases |ts|
  {
    if ts != [] {
      if ts[0].Match? {
        CopyBackMeaning(out, ts[0].offset, ts[0].len);
      }
      ExpandKeeps(format, ExpandOne(out, ts[0]), ts[1..]);
    }
  }

  lemma LiteralDecodes(s: LzState, b: Byte)
    requires Ok(s) && s.headerSize == 0 && s.flagIndex > 0 && s.flags < 128 && s.destCount > 0
    ensures Run(s, [b]) == More(NextFlag(s.(out := s.out + [b], destCount := s.destCount - 1))) && Unread(s, [b]) == 0
  {
    hide Run, Unread, Step, NextFlag;
    var bs := [b];
    assert bs[0..] == bs;
    LiteralStep(s, b);
    var t := NextFlag(s.(out := s.out + [b], destCount := s.destCount - 1));
    Advance(s, bs, 0);
    Stops(t, bs, 1);
  }

  lemma LiteralStep(s: LzState, b: Byte)
    requires Ok(s) && s.headerSize == 0 && s.flagIndex > 0 && s.flags < 128 && s.destCount > 0
    ensures Step(s, b) == More(NextFlag(s.(out := s.out + [b], destCount := s.destCount - 1)))
    ensures Ok(NextFlag(s.(out := s.out + [b], destCount := s.destCount - 1)))
  {
  }

  /** One token: the decoder writes what the token stands for, or as much of it as is still wanted. */
  lemma TokenDecodes(s: LzState, ts: seq<Token>)
    requires s.exFormat <= 1 && AtItem(s, s.exFormat) && s.flagIndex > 0 && s.destCount > 0
    requires ts != [] && s.flags == Flags(ts, s.flagIndex) && Encodable(s.exFormat, ts[0], |s.out|)
    requires Width(ts[0]) > s.destCount ==> s.forceDestCount > 0
    ensures var o := Run(s, EncodeToken(s.exFormat, ts[0]));
            var m := if Width(ts[0]) > s.destCount then s.destCount else Width(ts[0]);
            o == More(NextFlag(s.(out := ExpandOne(s.out, ts[0])[..|s.out| + m], destCount := s.destCount - m)))
    ensures Unread(s, EncodeToken(s.exFormat, ts[0])) == 0
  {
    hide Run, Unread, Flags, Step, CopyBack, EncodeMatch;
    FlagsShift(ts, s.flagIndex);
    if ts[0].Literal? {
      LiteralDecodes(s, ts[0].b);
    } else {
      MatchDecodes(s, ts[0]);
      CopyBackPrefix(s.out, ts[0].offset, if ts[0].len > s.destCount then s.destCount else ts[0].len, ts[0].len);
    }
  }

  /**
   The items of a list are decoded to what the list stands for, cut off where the output is complete. Only a forced
   size makes the output end before the list does.
   */
  lemma {:induction false} ItemsDecode(s: LzState, ts: seq<Token>)
    requires s.exFormat <= 1 && AtItem(s, s.exFormat)
    requires s.flagIndex > 0 ==> s.flags == Flags(ts, s.flagIndex)
    requires WellFormed(s.exFormat, ts, |s.out|)
    requires 0 <= s.destCount <= |Expand(s.exFormat, s.out, ts)| - |s.out|
    requires s.destCount < |Expand(s.exFormat, s.out, ts)| - |s.out| ==> s.forceDestCount > 0
    ensures var o := Run(s, EncodeItems(s.exFormat, ts, |s.out|, s.flagIndex));
            && o.More? && o.st.destCount == 0 && o.st.headerSize == 0
            && o.st.out == Expand(s.exFormat, s.out, ts)[..|s.out| + s.destCount]
    ensures s.forceDestCount == 0 ==> Unread(s, EncodeItems(s.exFormat, ts, |s.out|, s.flagIndex)) == 0
    decreases |ts|, 8 - s.flagIndex
  {
    hide Run, Unread, Flags, Step, CopyBack, EncodeMatch;
    var bs := EncodeItems(s.exFormat, ts, |s.out|, s.flagIndex);
    assert bs[0..] == bs;
    ExpandKeeps(s.exFormat, s.out, ts);
    if s.destCount == 0 {
      Stops(s, bs, 0);
    } else if s.flagIndex == 0 {
      var t := s.(flags := Flags(ts, 8), flagIndex := 8);
      FlagByteDecodes(s, bs);
      ItemsDecode(t, ts);
    } else {
      var token := EncodeToken(s.exFormat, ts[0]);
      var rest := bs[|token|..];
      TokenDecodes(s, ts);
      RunSplit(s, token, rest);
      UnreadSplit(s, token, rest);
      FlagsShift(ts, s.flagIndex);
      var out := ExpandOne(s.out, ts[0]);
      ExpandKeeps(s.exFormat, out, ts[1..]);
      var t := Run(s, token).st;
      if Width(ts[0]) >= s.destCount {
        Stops(t, bs, |token|);
      } else {
        assert out[..|s.out| + Width(ts[0])] == out;
        ItemsDecode(t, ts[1..]);
      }
    }
  }

  lemma FlagByteDecodes(s: LzState, bs: seq<Byte>)
    requires Ok(s) && s.headerSize == 0 && s.flagIndex == 0 && s.destCount > 0 && bs != []
    ensures Run(s, bs) == Run(s.(flags := bs[0], flagIndex := 8), bs[1..])
    ensures Unread(s, bs) == Unread(s.(flags := bs[0], flagIndex := 8), bs[1..])
  {
    hide Run, Unread;
    assert bs[0..] == bs;
    Advance(s, bs, 0);
  }
}
