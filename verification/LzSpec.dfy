/**
 The streaming LZ decoder of cx_StreamingUncompression.cpp as a machine that is fed one byte at a time.
 Bit operations on non-overlapping fields are written with `/`, `%` and `+`: for a positive divisor Dafny's
 division floors, which is what an arithmetic right shift does.
 */
module LzSpec {
  import opened Bytes
  import opened Words

  // The fields of UncompContextLZ; `out` is what has been written through destp so far.
  datatype LzState = LzState(
    out: seq<Byte>,
    destCount: int,
    forceDestCount: int,
    length: int,
    lengthFlg: Byte,
    flags: Byte,
    flagIndex: Byte,
    headerSize: Byte,
    exFormat: Byte)

  // What one more byte leads to. `Outside` is a back-reference to before the first byte written, on which the
  // decoder reads memory it never wrote.
  datatype Outcome =
    | More(st: LzState)
    | Failed(code: int, st: LzState)
    | Outside

  function Pow256(k: nat): nat {
    if k == 0 then 1 else 256 * Pow256(k - 1)
  }

  /** `x | (b << 8 * k)` on a 32-bit signed integer whose bits from 8 * k up are clear. */
  function OrByteAt(x: int, b: Byte, k: nat): (r: int)
    requires k <= 3 && 0 <= x < Pow256(k)
    ensures k <= 2 ==> x <= r < Pow256(k + 1)
  {
    assert Pow256(0) == 1 && Pow256(1) == 256 && Pow256(2) == 0x1_0000 && Pow256(3) == 0x100_0000;
    ToS32(x + b * Pow256(k))
  }

  /** The context set up by InitUncompContextLZ, with the forced size the caller then chose. */
  function Init(forceDestCount: int): LzState {
    LzState([], 0, forceDestCount, 0, 3, 0, 0, 8, 0)
  }

  // How many bytes of the size field being read (24-bit field first, then the 32-bit one) are already in destCount.
  function SizeBytesRead(headerSize: Byte): nat
    requires 1 <= headerSize <= 7
  {
    if headerSize >= 5 then 7 - headerSize else 4 - headerSize
  }

  /** While the header is being read, only the low bytes of destCount are in use. */
  predicate Ok(s: LzState) {
    && s.headerSize <= 8 && s.flagIndex <= 8 && s.lengthFlg <= 3 && s.length >= 0
    && (s.headerSize == 8 ==> s.destCount == 0)
    && (1 <= s.headerSize <= 7 ==> 0 <= s.destCount < Pow256(SizeBytesRead(s.headerSize)))
  }

  /** One turn of the loop of ReadHeader, with the clipping that follows the loop once the header is complete. */
  function ReadHeaderByte(s: LzState, b: Byte): (t: LzState)
    requires Ok(s) && s.headerSize > 0
    ensures Ok(t)
  {
    var h := s.headerSize - 1;
    var count :=
      if h <= 3 then OrByteAt(s.destCount, b, 3 - h)
      else if h <= 6 then OrByteAt(s.destCount, b, 6 - h)
      else s.destCount;
    var h' := if h == 4 && count > 0 then 0 else h;
    var t := s.(headerSize := h', destCount := count);
    if h' == 0 then Clip(t) else t
  }

  function Clip(s: LzState): LzState {
    if s.forceDestCount > 0 && s.forceDestCount < s.destCount then s.(destCount := s.forceDestCount) else s
  }

  function HeaderStep(s: LzState, b: Byte): Outcome
    requires Ok(s) && s.headerSize > 0
  {
    if s.headerSize == 8 then
      if b / 16 != 1 then Failed(-1, s)
      else if b % 16 != 0 && b % 16 != 1 then Failed(-1, s.(exFormat := b % 16))
      else More(ReadHeaderByte(s.(exFormat := b % 16), b))
    else More(ReadHeaderByte(s, b))
  }

  /** One byte of a length field. */
  function LengthStep(s: LzState, b: Byte): LzState
    requires 0 < s.lengthFlg <= 3
  {
    var f := s.lengthFlg - 1;
    if s.exFormat == 0 then s.(length := b + 3 * 16, lengthFlg := 0)
    else if f == 2 then
      if b / 16 == 1 then s.(length := b % 16 * 0x1_0000 + (0xFF + 0xF + 3) * 16, lengthFlg := 2)
      else if b / 16 == 0 then s.(length := b % 16 * 0x100 + (0xF + 2) * 16, lengthFlg := 1)
      else s.(length := b + 16, lengthFlg := 0)
    else if f == 1 then s.(length := s.length + b * 0x100, lengthFlg := 1)
    else s.(length := s.length + b, lengthFlg := 0)
  }

  /** `n` bytes, each equal to the one `offset` places before it: the copy may overlap its own output. */
  function CopyBack(out: seq<Byte>, offset: nat, n: nat): (r: seq<Byte>)
    requires 1 <= offset <= |out|
    ensures |r| == |out| + n
    decreases n
  {
    if n == 0 then out else CopyBack(out + [out[|out| - offset]], offset, n - 1)
  }

  /** What the copy means: old output is kept, and every new byte repeats the one `offset` places before it. */
  lemma {:induction false} CopyBackMeaning(out: seq<Byte>, offset: nat, n: nat)
    requires 1 <= offset <= |out|
    ensures var r := CopyBack(out, offset, n);
            out <= r && forall k :: |out| <= k < |r| ==> r[k] == r[k - offset]
    decreases n
  {
    if n > 0 {
      CopyBackMeaning(out + [out[|out| - offset]], offset, n - 1);
    }
  }

  /** Past a finished literal or match, unless the output is complete. */
  function NextFlag(s: LzState): LzState
    requires s.flagIndex > 0
  {
    if s.destCount == 0 then s
    else s.(flags := s.flags * 2 % 256, flagIndex := s.flagIndex - 1)
  }

  /** The last byte of a match: the low byte of the offset, after which the match is copied. */
  function OffsetStep(s: LzState, b: Byte): Outcome
    requires s.flagIndex > 0
  {
    var offset := s.length % 16 * 256 + b + 1;
    var n := s.length / 16;
    var t := s.(length := n, lengthFlg := 3);
    if n > s.destCount && s.forceDestCount == 0 then Failed(-4, t)
    else
      var m := if n > s.destCount then s.destCount else n;
      if m <= 0 then More(NextFlag(t.(length := m)))
      else if offset > |s.out| then Outside
      else More(NextFlag(t.(out := CopyBack(s.out, offset, m), destCount := s.destCount - m, length := 0)))
  }

  function BodyStep(s: LzState, b: Byte): Outcome
    requires s.lengthFlg <= 3
  {
    if s.flagIndex == 0 then More(s.(flags := b, flagIndex := 8))
    else if s.flags < 128 then More(NextFlag(s.(out := s.out + [b], destCount := s.destCount - 1)))
    else if s.lengthFlg > 0 then More(LengthStep(s, b))
    else OffsetStep(s, b)
  }

  function Step(s: LzState, b: Byte): (o: Outcome)
    requires Ok(s) && !Done(s)
    ensures o.More? ==> Ok(o.st)
  {
    if s.headerSize > 0 then HeaderStep(s, b) else BodyStep(s, b)
  }

  /** The header is read and nothing is left to write: further input is not looked at. */
  predicate Done(s: LzState) {
    s.headerSize == 0 && s.destCount <= 0
  }

  function Run(s: LzState, bs: seq<Byte>): (o: Outcome)
    requires Ok(s)
    ensures o.More? ==> Ok(o.st)
    decreases |bs|
  {
    if bs == [] || Done(s) then More(s)
    else
      var o := Step(s, bs[0]);
      if o.More? then Run(o.st, bs[1..]) else o
  }

  /** How many bytes are left over when the output is complete. */
  function Unread(s: LzState, bs: seq<Byte>): nat
    requires Ok(s)
    decreases |bs|
  {
    if bs == [] then 0
    else if Done(s) then |bs|
    else
      var o := Step(s, bs[0]);
      if o.More? then Unread(o.st, bs[1..]) else 0
  }

  /** What ReadUncompLZ returns for the piece `bs`. */
  function ReturnCode(s: LzState, bs: seq<Byte>): int
    requires Ok(s) && !Run(s, bs).Outside?
  {
    var o := Run(s, bs);
    if o.Failed? then o.code
    else if o.st.headerSize > 0 then -1
    else if o.st.destCount > 0 then o.st.destCount
    else if s.headerSize > 0 && Unread(s, bs) == 0 then o.st.destCount
    else if s.forceDestCount == 0 && Unread(s, bs) > 32 then -3
    else 0
  }

  lemma Advance(s: LzState, data: seq<Byte>, i: nat)
    requires Ok(s) && i < |data| && !Done(s)
    ensures var o := Step(s, data[i]);
            if o.More? then
              Run(s, data[i..]) == Run(o.st, data[i + 1..]) && Unread(s, data[i..]) == Unread(o.st, data[i + 1..])
            else Run(s, data[i..]) == o
  {
    assert data[i..][1..] == data[i + 1..];
  }

  lemma Stops(s: LzState, data: seq<Byte>, i: nat)
    requires Ok(s) && i <= |data| && (i == |data| || Done(s))
    ensures Run(s, data[i..]) == More(s) && Unread(s, data[i..]) == |data| - i
  {
  }

  /** Cutting the input anywhere makes no difference. */
  lemma {:induction false} RunSplit(s: LzState, a: seq<Byte>, b: seq<Byte>)
    requires Ok(s)
    ensures Run(s, a + b) == if Run(s, a).More? then Run(Run(s, a).st, b) else Run(s, a)
    decreases |a|
  {
    if a == [] {
      assert a + b == b;
    } else if !Done(s) {
      assert (a + b)[1..] == a[1..] + b;
      if Step(s, a[0]).More? {
        RunSplit(Step(s, a[0]).st, a[1..], b);
      }
    }
  }

  function Flatten(pieces: seq<seq<Byte>>): seq<Byte> {
    if pieces == [] then [] else pieces[0] + Flatten(pieces[1..])
  }

  /** The pieces fed one after the other, until one is rejected. */
  function RunPieces(s: LzState, pieces: seq<seq<Byte>>): Outcome
    requires Ok(s)
    decreases |pieces|
  {
    if pieces == [] then More(s)
    else
      var o := Run(s, pieces[0]);
      if o.More? then RunPieces(o.st, pieces[1..]) else o
  }

  /** However the stream is cut, feeding the pieces comes to the same as feeding it whole. */
  lemma {:induction false} PiecesAsWhole(s: LzState, pieces: seq<seq<Byte>>)
    requires Ok(s)
    ensures RunPieces(s, pieces) == Run(s, Flatten(pieces))
    decreases |pieces|
  {
    if pieces != [] {
      RunSplit(s, pieces[0], Flatten(pieces[1..]));
      var o := Run(s, pieces[0]);
      if o.More? {
        PiecesAsWhole(o.st, pieces[1..]);
      }
    }
  }

  /** Chunk invariance: two ways of cutting the same bytes end in the same context and output. */
  lemma ChunkInvariance(s: LzState, p: seq<seq<Byte>>, q: seq<seq<Byte>>)
    requires Ok(s) && Flatten(p) == Flatten(q)
    ensures RunPieces(s, p) == RunPieces(s, q)
  {
    PiecesAsWhole(s, p);
    PiecesAsWhole(s, q);
  }

  lemma {:induction false} UnreadSplit(s: LzState, a: seq<Byte>, b: seq<Byte>)
    requires Ok(s) && Run(s, a).More?
    ensures Unread(s, a + b) == Unread(s, a) + Unread(Run(s, a).st, b)
    ensures Unread(s, a) > 0 ==> Done(Run(s, a).st)
    decreases |a|
  {
    if a == [] {
      assert a + b == b;
    } else if Done(s) {
      Stops(s, b, 0);
      Stops(s, a + b, 0);
      assert b[0..] == b && (a + b)[0..] == a + b;
    } else {
      assert (a + b)[1..] == a[1..] + b;
      UnreadSplit(Step(s, a[0]).st, a[1..], b);
    }
  }

  lemma StepRejects(s: LzState, b: Byte)
    requires Ok(s) && !Done(s)
    ensures var o := Step(s, b);
            && (o.Failed? ==> (o.code == -1 && o.st.headerSize == 8) || (o.code == -4 && o.st.destCount > 0))
            && (o.More? ==> o.st.headerSize < 8)
  {
    hide CopyBack;
  }

  /** How a rejection can be told: by the code, and by the header still to be begun or output still to be written. */
  lemma {:induction false} RunRejects(s: LzState, bs: seq<Byte>)
    requires Ok(s) && (s.headerSize == 8 ==> bs != [])
    ensures var o := Run(s, bs);
            && (o.Failed? ==> (o.code == -1 && o.st.headerSize == 8) || (o.code == -4 && o.st.destCount > 0))
            && (o.More? ==> o.st.headerSize < 8)
    decreases |bs|
  {
    hide Step;
    if bs != [] && !Done(s) {
      StepRejects(s, bs[0]);
      if Step(s, bs[0]).More? {
        RunRejects(Step(s, bs[0]).st, bs[1..]);
      }
    }
  }

  lemma BodyStepKeepsSign(s: LzState, b: Byte)
    requires Ok(s) && s.headerSize == 0 && !Done(s) && Step(s, b).More?
    ensures Step(s, b).st.headerSize == 0 && Step(s, b).st.destCount >= 0
  {
    hide CopyBack;
  }

  /** Once the header is read it stays read, and what is still to be written does not become negative. */
  lemma {:induction false} RunKeepsSign(s: LzState, bs: seq<Byte>)
    requires Ok(s) && s.headerSize == 0 && Run(s, bs).More?
    ensures Run(s, bs).st.headerSize == 0 && (s.destCount >= 0 ==> Run(s, bs).st.destCount >= 0)
    decreases |bs|
  {
    hide Step;
    if bs != [] && !Done(s) {
      BodyStepKeepsSign(s, bs[0]);
      RunKeepsSign(Step(s, bs[0]).st, bs[1..]);
    }
  }

  /**
   What is returned does depend on the cut: the complaint about trailing bytes goes by those of the last piece alone.
   This is the only difference.
   */
  lemma ReturnCodeAndCut(s: LzState, a: seq<Byte>, t: LzState, b: seq<Byte>)
    requires Ok(s) && Run(s, a) == More(t) && Ok(t) && Run(t, b).More? && b != []
    requires !Run(s, a + b).Outside?
    ensures ReturnCode(s, a + b) == ReturnCode(t, b)
            <==> !(s.forceDestCount == 0 && Done(t) && |b| <= 32 < Unread(s, a) + |b|)
  {
    hide Run, Unread;
    RunSplit(s, a, b);
    UnreadSplit(s, a, b);
    SizeConserved(s, a);
    SizeConserved(t, b);
    if s.headerSize == 0 {
      RunKeepsSign(s, a);
    }
    if t.headerSize == 0 {
      RunKeepsSign(t, b);
    }
    if Done(t) {
      assert b[0..] == b;
      Stops(t, b, 0);
    }
  }

  /** Two pieces of twenty bytes each behind a complete output: one call complains about them, two calls do not. */
  lemma ReturnCodeDiffers()
    ensures var s, twenty := Init(0).(headerSize := 0), seq(20, _ => 0);
            && Ok(s) && Run(s, twenty) == More(s) && !Run(s, twenty + twenty).Outside?
            && ReturnCode(s, twenty + twenty) == -3 && ReturnCode(s, twenty) == 0
  {
  }

  /** The output is complete with `n` bytes of the input still to come. */
  predicate Trails(s: LzState, bs: seq<Byte>, n: nat)
    requires Ok(s)
  {
    n <= |bs| && var o := Run(s, bs[..|bs| - n]); o.More? && Done(o.st)
  }

  lemma {:induction false} UnreadBound(s: LzState, bs: seq<Byte>)
    requires Ok(s)
    ensures Unread(s, bs) <= |bs| && (bs != [] && !Done(s) ==> Unread(s, bs) < |bs|)
    decreases |bs|
  {
    if bs != [] && !Done(s) && Step(s, bs[0]).More? {
      UnreadBound(Step(s, bs[0]).st, bs[1..]);
    }
  }

  /** What is left over is what trails. */
  lemma UnreadTrails(s: LzState, bs: seq<Byte>, n: nat)
    requires Ok(s) && Run(s, bs).More? && n > 0
    ensures Unread(s, bs) >= n <==> Trails(s, bs, n)
  {
    hide Run, Unread;
    UnreadBound(s, bs);
    if n <= |bs| {
      var a, b := bs[..|bs| - n], bs[|bs| - n..];
      assert bs == a + b && b[0..] == b;
      RunSplit(s, a, b);
      UnreadSplit(s, a, b);
      UnreadBound(Run(s, a).st, b);
      if Done(Run(s, a).st) {
        Stops(Run(s, a).st, b, 0);
      }
    }
  }

  /** Which bytes are refused as the first of a stream. */
  lemma FirstByteRejected(s: LzState, bs: seq<Byte>)
    requires Ok(s) && s.headerSize == 8 && bs != []
    ensures bs[0] !in {0x10, 0x11} <==> Run(s, bs).Failed? && Run(s, bs).code == -1
  {
    hide Run;
    assert bs[0..] == bs;
    Advance(s, bs, 0);
    if bs[0] in {0x10, 0x11} {
      var t := Step(s, bs[0]).st;
      StepRejects(s, bs[0]);
      RunRejects(t, bs[1..]);
      RunKeepsBegun(t, bs[1..]);
    }
  }

  lemma {:induction false} RunKeepsBegun(s: LzState, bs: seq<Byte>)
    requires Ok(s) && s.headerSize < 8
    ensures Run(s, bs).Failed? ==> Run(s, bs).st.headerSize == 0
    decreases |bs|
  {
    hide Step;
    if bs != [] && !Done(s) {
      BegunStep(s, bs[0]);
      if Step(s, bs[0]).More? {
        RunKeepsBegun(Step(s, bs[0]).st, bs[1..]);
      }
    }
  }

  lemma BegunStep(s: LzState, b: Byte)
    requires Ok(s) && s.headerSize < 8 && !Done(s)
    ensures Step(s, b).More? ==> Step(s, b).st.headerSize < 8
    ensures Step(s, b).Failed? ==> Step(s, b).st.headerSize == 0
  {
    hide CopyBack;
  }

  /** A match is refused when no size is forced and it is longer than what is still to be written. */
  lemma {:induction false} TooLongRejected(s: LzState, bs: seq<Byte>)
    requires Ok(s) && Run(s, bs).Failed? && Run(s, bs).code == -4
    ensures s.forceDestCount == 0 && Run(s, bs).st.length > Run(s, bs).st.destCount > 0
    decreases |bs|
  {
    hide Step;
    TooLongStep(s, bs[0]);
    if Step(s, bs[0]).More? {
      TooLongRejected(Step(s, bs[0]).st, bs[1..]);
    }
  }

  lemma TooLongStep(s: LzState, b: Byte)
    requires Ok(s) && !Done(s)
    ensures var o := Step(s, b);
            && (o.More? ==> o.st.forceDestCount == s.forceDestCount)
            && (o.Failed? && o.code == -4 ==> s.forceDestCount == 0 && o.st.length > o.st.destCount > 0)
  {
    hide CopyBack;
  }

  /**
   What the returned number means: a rejection, as long as the context tells it from a number of bytes; -1 while the
   header is not complete; how many bytes are still to be written; and at the end whether more than 32 bytes trail. A
   header that ends the input is answered with its size, which may be a negative one.
   */
  lemma ReturnCodeMeans(s: LzState, bs: seq<Byte>)
    requires Ok(s) && (s.headerSize == 8 ==> bs != []) && !Run(s, bs).Outside?
    ensures var o, r := Run(s, bs), ReturnCode(s, bs);
            && (o.Failed? <==> (r == -1 && o.st.headerSize == 8) || (r == -4 && o.st.destCount > 0))
            && (r == -4 && o.st.destCount > 0 ==> s.forceDestCount == 0 && o.st.length > o.st.destCount)
            && (s.headerSize == 8 ==> (bs[0] !in {0x10, 0x11} <==> r == -1 && o.st.headerSize == 8))
            && (o.More? ==> (r > 0 <==> o.st.headerSize == 0 && o.st.destCount > 0))
            && (o.More? && r > 0 ==> r == o.st.destCount)
            && (o.More? && o.st.headerSize > 0 ==> r == -1)
            && (o.More? && o.st.headerSize == 0 && o.st.destCount <= 0 ==>
                  r == if s.headerSize > 0 && !Trails(s, bs, 1) then o.st.destCount
                       else if s.forceDestCount == 0 && Trails(s, bs, 33) then -3 else 0)
  {
    hide Run, Unread, Trails;
    RunRejects(s, bs);
    if s.headerSize == 8 {
      FirstByteRejected(s, bs);
    }
    if Run(s, bs).More? {
      UnreadTrails(s, bs, 1);
      UnreadTrails(s, bs, 33);
    } else if Run(s, bs).code == -4 {
      TooLongRejected(s, bs);
    }
  }

  lemma StepConserved(s: LzState, b: Byte)
    requires Ok(s) && !Done(s) && !Step(s, b).Outside?
    ensures var t := Step(s, b).st;
            && s.out <= t.out && t.forceDestCount == s.forceDestCount
            && (s.headerSize == 0 ==> t.headerSize == 0 && |t.out| + t.destCount == |s.out| + s.destCount)
  {
    var offset, n := s.length % 16 * 256 + b + 1, s.length / 16;
    var m := if n > s.destCount then s.destCount else n;
    if 0 < m && offset <= |s.out| {
      CopyBackMeaning(s.out, offset, m);
    }
  }

  /**
   Once the header is read, what has been written and what is still to be written add up to the same size for
   ever, whatever the input and even when the stream is rejected; and bytes already written never change.
   */
  lemma {:induction false} SizeConserved(s: LzState, bs: seq<Byte>)
    requires Ok(s) && !Run(s, bs).Outside?
    ensures var t := Run(s, bs).st;
            && s.out <= t.out && t.forceDestCount == s.forceDestCount
            && (s.headerSize == 0 ==> |t.out| + t.destCount == |s.out| + s.destCount)
    decreases |bs|
  {
    if bs != [] && !Done(s) {
      var o := Step(s, bs[0]);
      StepConserved(s, bs[0]);
      if o.More? {
        SizeConserved(o.st, bs[1..]);
      }
    }
  }

  /** The output only grows: a step that writes leaves no less room to be needed at the end. */
  lemma RoomNeeded(s: LzState, data: seq<Byte>, i: nat)
    requires Ok(s) && i < |data| && !Done(s) && Step(s, data[i]).More? && !Run(s, data[i..]).Outside?
    ensures |Step(s, data[i]).st.out| <= |Run(s, data[i..]).st.out|
  {
    Advance(s, data, i);
    SizeConserved(Step(s, data[i]).st, data[i + 1..]);
  }
}
