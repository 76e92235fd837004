/**
 UncompContextLZ and ReadUncompLZ of cx_StreamingUncompression.cpp. The destination is an array that does not
 overlap the input pieces; `destp` is an index into it.
 */
module LzStreaming {
  import opened Bytes
  import opened LzSpec

  // Going on from `s` at position `i` of `data` comes to the same as going on from `t` at position `j`.
  ghost predicate Follows(s: LzState, i: nat, t: LzState, j: nat, data: seq<Byte>)
    requires Ok(s) && Ok(t) && i <= |data| && j <= |data|
  {
    Run(s, data[i..]) == Run(t, data[j..]) && Unread(s, data[i..]) == Unread(t, data[j..])
  }

  // How a flagged item ended: the input ran out in it, it is longer than the output to come, or it was copied.
  datatype MatchResult = NeedInput | TooLong | Copied

  class UncompContextLZ {
    const dest: array<Byte>
    var destp: nat
    var destCount: int
    var forceDestCount: int
    var length: int
    var lengthFlg: Byte
    var flags: Byte
    var flagIndex: Byte
    var headerSize: Byte
    var exFormat: Byte

    ghost function State(): LzState
      reads this, dest
      requires destp <= dest.Length
    {
      LzState(dest[..destp], destCount, forceDestCount, length, lengthFlg, flags, flagIndex, headerSize, exFormat)
    }

    ghost predicate Valid()
      reads this, dest
    {
      destp <= dest.Length && Ok(State())
    }

    // InitUncompContextLZ; the caller may set forceDestCount afterwards.
    constructor (dest: array<Byte>)
      ensures Valid() && this.dest == dest && State() == Init(0)
    {
      this.dest := dest;
      destp := 0;
      destCount := 0;
      flags := 0;
      flagIndex := 0;
      length := 0;
      lengthFlg := 3;
      headerSize := 8;
      exFormat := 0;
      forceDestCount := 0;
    }

    // The first half of one turn of the loop below: everything up to the test for the end of the piece.
    method ReadHeaderTurn(b: Byte)
      requires Valid() && headerSize > 0
      modifies this`headerSize, this`destCount
      ensures headerSize < old(headerSize) && Valid()
      ensures ReadHeaderByte(old(State()), b) == if headerSize == 0 then Clip(State()) else State()
    {
      headerSize := headerSize - 1;
      if headerSize <= 3 {
        destCount := OrByteAt(destCount, b, 3 - headerSize);
      } else if headerSize <= 6 {
        destCount := OrByteAt(destCount, b, 6 - headerSize);
      }
      if headerSize == 4 && destCount > 0 {
        headerSize := 0;
      }
    }

    method ReadHeader(data: seq<Byte>) returns (readLen: nat)
      requires Valid() && headerSize > 0 && data != []
      requires headerSize == 8 ==> data[0] / 16 == 1 && data[0] % 16 <= 1 && exFormat == data[0] % 16
      modifies this`headerSize, this`destCount
      ensures Valid() && 0 < readLen <= |data|
      ensures headerSize > 0 ==> readLen == |data|
      ensures Follows(old(State()), 0, State(), readLen, data)
    {
      hide Run, Unread;
      ghost var s0 := State();
      readLen := 0;
      while headerSize > 0
        invariant readLen <= |data| && destp <= dest.Length && (readLen == |data| ==> headerSize == 0)
        invariant headerSize == 8 ==> readLen == 0
        invariant headerSize == 0 ==> readLen > 0
        invariant Ok(State())
        invariant Follows(s0, 0, if headerSize == 0 then Clip(State()) else State(), readLen, data)
        decreases headerSize
      {
        Advance(State(), data, readLen);
        ReadHeaderTurn(data[readLen]);
        readLen := readLen + 1;
        if readLen == |data| && headerSize > 0 {
          return;
        }
      }
      if forceDestCount > 0 && forceDestCount < destCount {
        destCount := forceDestCount;
      }
    }

    // One turn of the length loop.
    method ReadLengthByte(b: Byte)
      requires Valid() && lengthFlg > 0
      modifies this`length, this`lengthFlg
      ensures Valid() && lengthFlg < old(lengthFlg)
      ensures State() == LengthStep(old(State()), b)
    {
      lengthFlg := lengthFlg - 1;
      if exFormat == 0 {
        length := b;
        length := length + 3 * 16;
        lengthFlg := 0;
      } else {
        match lengthFlg
        case 2 =>
          length := b;
          if length / 16 == 1 {
            length := length % 16 * 0x1_0000;
            length := length + (0xFF + 0xF + 3) * 16;
          } else if length / 16 == 0 {
            length := length % 16 * 0x100;
            length := length + (0xF + 2) * 16;
            lengthFlg := 1;
          } else {
            length := length + 16;
            lengthFlg := 0;
          }
        case 1 =>
          length := length + b * 0x100;
        case _ =>
          length := length + b;
      }
    }

    // The copy loop. Source and destination may overlap: bytes just written are read again.
    method CopyMatch(offset: nat)
      requires Valid() && headerSize == 0 && length >= 0 && destp + length <= dest.Length
      requires length > 0 ==> 1 <= offset <= destp
      modifies dest, this`destp, this`destCount, this`length
      ensures Valid() && destp == old(destp + length)
      ensures old(length) == 0 ==> State() == old(State())
      ensures old(length) > 0 ==>
                State() == old(State()).(out := CopyBack(old(State().out), offset, old(length)),
                                         destCount := old(destCount) - old(length), length := 0)
      ensures forall k :: destp <= k < dest.Length ==> dest[k] == old(dest[k])
    {
      ghost var n, out := length, dest[..destp];
      while length > 0
        invariant 0 <= length <= n && destp == old(destp) + n - length
        invariant destCount == old(destCount) - (n - length)
        invariant n == 0 ==> dest[..destp] == out
        invariant n > 0 ==> CopyBack(dest[..destp], offset, length) == CopyBack(out, offset, n)
        invariant forall k :: destp <= k < dest.Length ==> dest[k] == old(dest[k])
      {
        CopyByte(offset);
      }
    }

    // One turn of that loop.
    method CopyByte(offset: nat)
      requires 1 <= offset <= destp < dest.Length
      modifies dest, this`destp, this`destCount, this`length
      ensures destp == old(destp) + 1 && destCount == old(destCount) - 1 && length == old(length) - 1
      ensures dest[..destp] == old(dest[..destp] + [dest[destp - offset]])
      ensures forall k :: destp <= k < dest.Length ==> dest[k] == old(dest[k])
    {
      dest[destp] := dest[destp - offset];
      destp := destp + 1;
      destCount := destCount - 1;
      length := length - 1;
    }

    // The branch for an unflagged item.
    method PutLiteral(b: Byte)
      requires Valid() && headerSize == 0 && destp < dest.Length
      modifies dest, this`destp, this`destCount
      ensures destp == old(destp) + 1 && Valid()
      ensures State() == old(State()).(out := old(State().out) + [b], destCount := old(destCount) - 1)
      ensures forall k :: destp <= k < dest.Length ==> dest[k] == old(dest[k])
    {
      dest[destp] := b;
      destp := destp + 1;
      destCount := destCount - 1;
    }

    // The branch of ReadUncompLZ for a flagged item, up to the point where both branches meet again.
    method ReadMatch(data: seq<Byte>, start: nat) returns (r: MatchResult, srcp: nat)
      requires Valid() && headerSize == 0 && destCount > 0 && flagIndex > 0 && flags >= 128 && start < |data|
      requires !Run(State(), data[start..]).Outside? && |Run(State(), data[start..]).st.out| <= dest.Length
      modifies this, dest
      ensures Valid() && headerSize == 0 && start < srcp <= |data| && flagIndex == old(flagIndex) && destp >= old(destp)
      ensures r.NeedInput? ==> srcp == |data| && destCount > 0 && Follows(old(State()), start, State(), srcp, data)
      ensures r.TooLong? ==> Run(old(State()), data[start..]) == Failed(-4, State())
      ensures r.Copied? ==> destCount >= 0 && Follows(old(State()), start, NextFlag(State()), srcp, data)
      ensures forall k :: destp <= k < dest.Length ==> dest[k] == old(dest[k])
    {
      hide Run, Unread;
      srcp := ReadLength(data, start);
      if srcp == |data| {
        return NeedInput, srcp;
      }
      Advance(State(), data, srcp);
      if Step(State(), data[srcp]).More? {
        RoomNeeded(State(), data, srcp);
      }
      var fits := ReadOffset(data[srcp]);
      srcp := srcp + 1;
      r := if fits then Copied else TooLong;
    }

    // The last byte of a match, and the copy.
    method ReadOffset(b: Byte) returns (fits: bool)
      requires Valid() && headerSize == 0 && destCount > 0 && flagIndex > 0 && !OffsetStep(State(), b).Outside?
      requires OffsetStep(State(), b).More? ==> |OffsetStep(State(), b).st.out| <= dest.Length
      modifies dest, this`destp, this`destCount, this`length, this`lengthFlg
      ensures Valid() && destp >= old(destp)
      ensures fits ==> destCount >= 0 && OffsetStep(old(State()), b) == More(NextFlag(State()))
      ensures !fits ==> OffsetStep(old(State()), b) == Failed(-4, State())
      ensures forall k :: destp <= k < dest.Length ==> dest[k] == old(dest[k])
    {
      hide CopyBack;
      var offset := length % 16 * 256;
      length := length / 16;
      offset := offset + b + 1;
      lengthFlg := 3;
      if length > destCount {
        if forceDestCount == 0 {
          return false;
        }
        length := destCount;
      }
      CopyMatch(offset);
      return true;
    }

    // The length loop, up to the last byte of the length or of the piece.
    method ReadLength(data: seq<Byte>, start: nat) returns (srcp: nat)
      requires Valid() && headerSize == 0 && destCount > 0 && flagIndex > 0 && flags >= 128 && start < |data|
      modifies this`length, this`lengthFlg
      ensures Valid() && start <= srcp <= |data| && (srcp < |data| ==> lengthFlg == 0)
      ensures State() == old(State()).(length := length, lengthFlg := lengthFlg)
      ensures Follows(old(State()), start, State(), srcp, data)
    {
      hide Run, Unread;
      ghost var s0 := State();
      srcp := start;
      while lengthFlg > 0
        invariant Valid() && srcp < |data| && start <= srcp
        invariant State() == s0.(length := length, lengthFlg := lengthFlg)
        invariant Follows(s0, start, State(), srcp, data)
        decreases lengthFlg
      {
        Advance(State(), data, srcp);
        ReadLengthByte(data[srcp]);
        srcp := srcp + 1;
        if srcp == |data| {
          return;
        }
      }
    }

    // The inner loop of ReadUncompLZ: the items one flag byte speaks for.
    method ReadItems(data: seq<Byte>, start: nat) returns (r: MatchResult, srcp: nat)
      requires Valid() && headerSize == 0 && destCount > 0 && start <= |data|
      requires !Run(State(), data[start..]).Outside? && |Run(State(), data[start..]).st.out| <= dest.Length
      modifies this, dest
      ensures Valid() && headerSize == 0 && start <= srcp <= |data| && destp >= old(destp)
      ensures r.NeedInput? ==> srcp == |data| && destCount > 0
      ensures r.TooLong? ==> Run(old(State()), data[start..]) == Failed(-4, State())
      ensures r.Copied? ==> destCount >= 0 && (destCount > 0 ==> flagIndex == 0)
      ensures !r.TooLong? ==> Follows(old(State()), start, State(), srcp, data)
      ensures forall k :: destp <= k < dest.Length ==> dest[k] == old(dest[k])
    {
      hide Run, Unread;
      ghost var s0 := State();
      srcp := start;
      while flagIndex > 0
        invariant Valid() && headerSize == 0 && start <= srcp <= |data| && destCount > 0 && destp >= old(destp)
        invariant Follows(s0, start, State(), srcp, data)
        invariant forall k :: destp <= k < dest.Length ==> dest[k] == old(dest[k])
        decreases |data| - srcp
      {
        if srcp == |data| {
          return NeedInput, srcp;
        }
        if flags < 128 {
          Advance(State(), data, srcp);
          RoomNeeded(State(), data, srcp);
          PutLiteral(data[srcp]);
          srcp := srcp + 1;
        } else {
          r, srcp := ReadMatch(data, srcp);
          if !r.Copied? {
            return r, srcp;
          }
        }
        if destCount == 0 {
          return Copied, srcp;
        }
        flags := flags * 2 % 256;
        flagIndex := flagIndex - 1;
      }
      return Copied, srcp;
    }

    // The test of the first byte, and the header.
    method Begin(data: seq<Byte>) returns (ok: bool, srcp: nat)
      requires Valid() && headerSize > 0 && data != []
      modifies this`headerSize, this`destCount, this`exFormat
      ensures Valid() && srcp <= |data|
      ensures !ok ==> Run(old(State()), data) == Failed(-1, State())
      ensures ok ==> Follows(old(State()), 0, State(), srcp, data) && (headerSize > 0 ==> srcp == |data|)
    {
      hide Run, Unread;
      ghost var s0 := State();
      assert data[0..] == data;
      if headerSize == 8 {
        Advance(s0, data, 0);
        if data[0] / 16 != 1 {
          return false, 0;
        }
        exFormat := data[0] % 16;
        if exFormat != 0 && exFormat != 1 {
          return false, 0;
        }
        Advance(State(), data, 0);
      }
      srcp := ReadHeader(data);
      return true, srcp;
    }

    /**
     One piece of the stream. The caller provides a destination as large as the output that is reached, and the
     stream does not refer back to before its own output.
     */
    method ReadUncompLZ(data: seq<Byte>) returns (r: int)
      requires Valid() && (headerSize > 0 ==> data != [])
      requires !Run(State(), data).Outside? && |Run(State(), data).st.out| <= dest.Length
      modifies this, dest
      ensures destp <= dest.Length
      ensures State() == Run(old(State()), data).st
      ensures r == ReturnCode(old(State()), data)
      ensures Run(old(State()), data).Failed? <==> (r == -1 && headerSize == 8) || (r == -4 && destCount > 0)
      ensures r == -4 && destCount > 0 ==> forceDestCount == 0 && length > destCount
      ensures old(headerSize) == 8 ==> (data[0] !in {0x10, 0x11} <==> r == -1 && headerSize == 8)
      ensures Run(old(State()), data).More? ==>
        && (r > 0 <==> headerSize == 0 && destCount > 0) && (r > 0 ==> r == destCount)
        && (headerSize > 0 ==> r == -1)
        && (headerSize == 0 && destCount <= 0 ==>
              r == if old(headerSize) > 0 && !Trails(old(State()), data, 1) then destCount
                   else if forceDestCount == 0 && Trails(old(State()), data, 33) then -3 else 0)
      ensures forall k :: destp <= k < dest.Length ==> dest[k] == old(dest[k])
    {
      hide Run, Unread, Trails;
      ghost var s0 := State();
      SizeConserved(s0, data);
      ReturnCodeMeans(s0, data);
      assert data[0..] == data;
      var srcp := 0;
      if headerSize > 0 {
        var ok;
        ok, srcp := Begin(data);
        if !ok {
          return -1;
        }
        if srcp == |data| {
          Stops(State(), data, srcp);
          return if headerSize == 0 then destCount else -1;
        }
      }
      while destCount > 0
        invariant Valid() && headerSize == 0 && srcp <= |data|
        invariant s0.headerSize > 0 && srcp == |data| ==> destCount >= 0
        invariant Follows(s0, 0, State(), srcp, data)
        invariant forall k :: destp <= k < dest.Length ==> dest[k] == old(dest[k])
        decreases |data| - srcp
      {
        var item;
        item, srcp := ReadItems(data, srcp);
        if item.TooLong? {
          return -4;
        }
        if destCount == 0 {
          break;
        }
        if srcp == |data| {
          Stops(State(), data, srcp);
          return destCount;
        }
        Advance(State(), data, srcp);
        flags := data[srcp];
        flagIndex := 8;
        srcp := srcp + 1;
      }
      Stops(State(), data, srcp);
      if forceDestCount == 0 && |data| - srcp > 32 {
        return -3;
      }
      return 0;
    }

    /**
     A whole run of calls, one for each non-empty piece of a stream, up to the call that rejects it: context and output
     end up as one call on the uncut stream leaves them.
     */
    method ReadPieces(pieces: seq<seq<Byte>>) returns (ok: bool)
      requires Valid() && forall k :: 0 <= k < |pieces| ==> pieces[k] != []
      requires !Run(State(), Flatten(pieces)).Outside? && |Run(State(), Flatten(pieces)).st.out| <= dest.Length
      modifies this, dest
      ensures destp <= dest.Length && State() == Run(old(State()), Flatten(pieces)).st
      ensures ok == Run(old(State()), Flatten(pieces)).More? && (ok ==> Valid())
      ensures forall k :: destp <= k < dest.Length ==> dest[k] == old(dest[k])
    {
      hide Run, Unread, Step;
      ghost var s0 := State();
      var i := 0;
      assert pieces[0..] == pieces;
      while i < |pieces|
        invariant i <= |pieces| && Valid() && old(destp) <= destp
        invariant Run(State(), Flatten(pieces[i..])) == Run(s0, Flatten(pieces))
        invariant forall k :: destp <= k < dest.Length ==> dest[k] == old(dest[k])
      {
        assert pieces[i..][1..] == pieces[i + 1..] && Flatten(pieces[i..]) == pieces[i] + Flatten(pieces[i + 1..]);
        ok := ReadPiece(pieces[i], Flatten(pieces[i + 1..]));
        if !ok {
          return;
        }
        i := i + 1;
      }
      Stops(State(), [], 0);
      assert pieces[i..] == [];
      ok := true;
    }

    // One call of such a run. A code that could also be a number of bytes is told apart by the context.
    method ReadPiece(piece: seq<Byte>, ghost rest: seq<Byte>) returns (ok: bool)
      requires Valid() && piece != [] && !Run(State(), piece + rest).Outside?
      requires |Run(State(), piece + rest).st.out| <= dest.Length
      modifies this, dest
      ensures destp <= dest.Length && old(destp) <= destp
      ensures ok ==> Valid() && Run(State(), rest) == Run(old(State()), piece + rest)
      ensures !ok ==> Run(old(State()), piece + rest).Failed? && State() == Run(old(State()), piece + rest).st
      ensures forall k :: destp <= k < dest.Length ==> dest[k] == old(dest[k])
    {
      hide Run, Unread, Step;
      RunSplit(State(), piece, rest);
      RunRejects(State(), piece);
      SizeConserved(State(), piece);
      ghost var o := Run(State(), piece);
      if o.More? {
        SizeConserved(o.st, rest);
      }
      var r := ReadUncompLZ(piece);
      ok := !((r == -1 && headerSize == 8) || (r == -4 && destCount > 0));
    }
  }
}
