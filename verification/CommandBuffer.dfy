/**
 The writers of commandbuffer.c and the __cb_writeReg macro of commandbuffer.h. The buffer is an array, so that every
 store is checked to stay below `__cb_current_max_command_buffer`, which is its end; `cur` is
 `__cb_current_command_buffer` as an index. A buffer whose `cur` is at the end counts as full.
 */
module CommandBuffers {
  import opened CommandStream
  import opened Wrappers
  import opened Words

  /** `n & ~1`. */
  function Even(n: nat): (r: nat)
    ensures r <= n && r % 2 == 0
  {
    n - n % 2
  }

  function Repeat(value: U32, n: nat): seq<U32> {
    seq(n, _ => value)
  }

  /** The words a burst writer allows itself for `count` values. */
  function BurstRoom(count: nat): nat {
    Even(count) + (count / 128 + 1) * 2
  }

  /** The words it uses: per chunk of up to 128 values two words, and one more for each value but the first, padded. */
  function BurstLength(count: nat): nat
    decreases count
  {
    if count == 0 then 0
    else if count <= 128 then 2 + Even(count)
    else 2 + 128 + BurstLength(count - 128)
  }

  /** The room asked for up front is enough, and no more than that unless the last chunk is a full one. */
  lemma {:induction false} BurstFits(count: nat)
    ensures BurstLength(count) + (if count % 128 == 0 then 2 else 0) == BurstRoom(count)
    ensures BurstLength(count) % 2 == 0 && BurstLength(0) == 0
    decreases count
  {
    if count > 128 {
      var c := count - 128;
      BurstFits(c);
      assert count / 128 == c / 128 + 1 && Even(count) == Even(c) + 128;
    }
  }

  lemma {:induction false} BurstLengthMore(done: nat, count: nat)
    requires done % 128 == 0 && count <= 128
    ensures BurstLength(done + count) == BurstLength(done) + BurstLength(count)
    decreases done
  {
    if done > 0 && count > 0 {
      BurstLengthMore(done - 128, count);
    } else if done > 128 {
      BurstLengthMore(done - 128, 0);
    }
  }

  lemma BurstLengthGrows(done: nat, count: nat)
    requires done <= count
    ensures BurstLength(done) <= BurstLength(count)
    decreases count
  {
    if done > 128 {
      BurstLengthGrows(done - 128, count - 128);
    }
  }

  function ChunkSize(offset: nat, count: nat): (n: nat)
    requires offset < count
    ensures 1 <= n <= 128 && offset + n <= count && (n < 128 ==> offset + n == count)
  {
    if count - offset > 0x80 then 0x80 else count - offset
  }

  // Where the values read by a burst of `count` end: one further than asked for if `count` is even.
  function Readable(count: nat): nat {
    if count > 0 && count % 2 == 0 then count + 1 else count
  }

  /** Where the next chunk ends. */
  lemma ChunkStep(q: nat, offset: nat, count: nat)
    requires offset == 128 * q && offset < count
    ensures var n := ChunkSize(offset, count);
            && BurstLength(offset + n) == BurstLength(offset) + 2 + Even(n) <= BurstLength(count)
            && Even(n) == Padded(n - 1)
            && offset + 1 + Even(n) <= Readable(count)
  {
    hide BurstLength;
    var n := ChunkSize(offset, count);
    BurstLengthMore(offset, n);
    BurstLengthGrows(offset + n, count);
    OneChunkLength(n);
    LastChunkRead(offset, n, count);
  }

  lemma OneChunkLength(n: nat)
    requires 1 <= n <= 128
    ensures BurstLength(n) == 2 + Even(n) && Even(n) == Padded(n - 1)
  {
  }

  lemma LastChunkRead(offset: nat, n: nat, count: nat)
    requires offset % 128 == 0 && 1 <= n && offset + n <= count
    ensures offset + 1 + Even(n) <= Readable(count)
  {
    var q := offset / 128;
    assert offset == 2 * (64 * q);
  }

  /**
   The room test in 32-bit arithmetic gives the right answer exactly when the end worked out for the burst stays in the
   address space, or has wrapped round to a place that is still at or after the end of the buffer.
   */
  lemma RoomTestRight(base: nat, cur: nat, room: nat, length: nat)
    requires base + 4 * length < 0x1_0000_0000 && cur <= length
    ensures var end := base + 4 * cur + 4 * room;
            ((Low32(end) >= Low32(base + 4 * length)) <==> cur + room >= length)
            <==> (end < 0x1_0000_0000 || Low32(end) >= base + 4 * length)
  {
  }

  /** A count for which it is wrong: the words for 0x3F040000 values come to a little over 2^32 bytes. */
  lemma RoomTestWraps()
    ensures var room := BurstRoom(0x3F04_0000);
            4 * room > 0x1_0000_0000 && Low32(0x1400_0000 + 4 * room) < Low32(0x1400_0000 + 4 * 0x1_0000)
  {
  }

  /** A call of one of the writers. */
  datatype Call =
    | Reg(addr: nat, value: U32, be: nat)
    | Multi(addr: nat, count: nat, data: seq<U32>)
    | Regs(addr: nat, count: nat, data: seq<U32>)
    | Fill(addr: nat, count: nat, value: U32)
    | Dummy(addr: nat, count: nat)
  {
    /** Addresses and byte enables fit their fields, and the values to be copied are there. */
    predicate Ok() {
      match this
      case Reg(addr, _, be) => addr < 0x1_0000 && be < 16
      case Multi(addr, count, data) => addr < 0x1_0000 && |data| >= Readable(count)
      case Regs(addr, count, data) => addr + count <= 0x1_0000 && |data| >= Readable(count)
      case Fill(addr, count, _) => addr + count <= 0x1_0000
      case Dummy(addr, count) => addr < 0x1_0000 && count <= 2048
    }

    function Room(): nat {
      if Reg? then 0 else if Dummy? then count + 2 else BurstRoom(count)
    }

    /** The register writes asked for. */
    function Requests(): seq<Write>
      requires Ok()
    {
      match this
      case Reg(addr, value, be) => [Write(addr, be, value)]
      case Multi(addr, count, data) => BurstWrites(addr, false, data[..count])
      case Regs(addr, count, data) => BurstWrites(addr, true, data[..count])
      case Fill(addr, count, value) => BurstWrites(addr, true, Repeat(value, count))
      case Dummy(_, _) => []
    }
  }

  function AllRequests(calls: seq<Call>): seq<Write>
    requires forall k :: 0 <= k < |calls| ==> calls[k].Ok()
  {
    if calls == [] then [] else calls[0].Requests() + AllRequests(calls[1..])
  }

  lemma NoRequests(m: seq<Write>)
    ensures m + AllRequests([]) == m && SameEffect(m, m)
  {
  }

  lemma {:induction false} AllRequestsMore(calls: seq<Call>, c: Call)
    requires c.Ok() && forall k :: 0 <= k < |calls| ==> calls[k].Ok()
    ensures AllRequests(calls + [c]) == AllRequests(calls) + c.Requests()
    decreases |calls|
  {
    if calls != [] {
      assert (calls + [c])[1..] == calls[1..] + [c];
      AllRequestsMore(calls[1..], c);
    }
  }

  class CommandBuffer {
    const buf: array<U32>
    const base: nat    // the byte address of buf
    var cur: nat

    ghost predicate Valid()
      reads this, buf
    {
      && cur <= buf.Length && (buf.Length - cur) % 2 == 0
      && base + 4 * buf.Length < 0x1_0000_0000
      && (cur < buf.Length ==> Interp(buf[..cur]).Some?)
    }

    predicate Enabled()
      reads this
    {
      cur < buf.Length
    }

    /** The register writes put into the buffer so far. */
    ghost function Meaning(): seq<Write>
      reads this, buf
      requires Valid() && Enabled()
    {
      Interp(buf[..cur]).value
    }

    constructor (buf: array<U32>, base: nat)
      requires buf.Length % 2 == 0 && base + 4 * buf.Length < 0x1_0000_0000
      ensures Valid() && this.buf == buf && this.base == base && cur == 0
      ensures buf.Length > 0 ==> Meaning() == []
    {
      this.buf := buf;
      this.base := base;
      cur := 0;
    }

    /** __cb_writeReg: one value to one register, in the bytes that `be` enables. */
    method WriteReg(addr: nat, data: U32, be: nat)
      requires Valid() && addr < 0x1_0000 && be < 16
      modifies this`cur, buf
      ensures Valid() && cur == if old(Enabled()) then old(cur) + 2 else old(cur)
      ensures Enabled() ==> Meaning() == old(Meaning()) + [Write(addr, be, data)]
    {
      hide Interp, Header;
      if cur < buf.Length {
        ghost var before := buf[..cur];
        buf[cur] := data;
        buf[cur + 1] := Header(addr, be, 0, false);
        cur := cur + 2;
        assert buf[..cur] == before + [data, Header(addr, be, 0, false)];
        SinglePacket(addr, be, data);
        InterpAppend(before, [data, Header(addr, be, 0, false)]);
      }
    }

    // `*dst++ = *src++;` twice. What is in the buffer before, `head` and the words from `from` on, grows by two.
    method Copy2(dst: nat, data: seq<U32>, src: nat, ghost head: seq<U32>, ghost from: nat)
      requires dst + 2 <= buf.Length && from <= src && src + 2 <= |data|
      requires buf[..dst] == head + data[from..src]
      modifies buf
      ensures buf[..dst + 2] == head + data[from..src + 2]
    {
      buf[dst] := data[src];
      assert buf[..dst + 1] == buf[..dst] + [data[src]];
      buf[dst + 1] := data[src + 1];
      assert buf[..dst + 2] == buf[..dst + 1] + [data[src + 1]];
      assert data[from..src + 2] == data[from..src] + [data[src]] + [data[src + 1]];
    }

    // The unrolled copy of sixteen words.
    method Copy16(dst: nat, data: seq<U32>, src: nat, ghost head: seq<U32>, ghost from: nat)
      requires dst + 16 <= buf.Length && from <= src && src + 16 <= |data|
      requires buf[..dst] == head + data[from..src]
      modifies buf
      ensures buf[..dst + 16] == head + data[from..src + 16]
    {
      Copy2(dst, data, src, head, from);
      Copy2(dst + 2, data, src + 2, head, from);
      Copy2(dst + 4, data, src + 4, head, from);
      Copy2(dst + 6, data, src + 6, head, from);
      Copy2(dst + 8, data, src + 8, head, from);
      Copy2(dst + 10, data, src + 10, head, from);
      Copy2(dst + 12, data, src + 12, head, from);
      Copy2(dst + 14, data, src + 14, head, from);
    }

    // The first value of a chunk and its header.
    method BeginChunk(start: nat, value: U32, h: U32)
      requires start + 2 <= buf.Length
      modifies buf
      ensures buf[..start + 2] == old(buf[..start]) + [value, h]
    {
      buf[start] := value;
      buf[start + 1] := h;
    }

    // One chunk of __cb_multiWriteReg: the copy is in pairs until a multiple of sixteen is left.
    method MultiChunk(start: nat, h: U32, count: nat, data: seq<U32>, src0: nat) returns (dst: nat)
      requires 1 <= count && start + 2 + Even(count) <= buf.Length && src0 + 1 + Even(count) <= |data|
      modifies buf
      ensures dst == start + 2 + Even(count)
      ensures buf[..dst] == old(buf[..start]) + [data[src0], h] + data[src0 + 1..src0 + 1 + Even(count)]
    {
      hide Even;
      var src, n := src0 + 1, Even(count);
      BeginChunk(start, data[src0], h);
      dst := start + 2;
      ghost var head, end, k := buf[..dst], src + n, n / 2;
      assert n == 2 * k;
      while n % 16 != 0
        invariant 0 <= k && n == 2 * k
        invariant src + n == end && dst + n == start + 2 + Even(count) && src > src0
        invariant buf[..dst] == head + data[src0 + 1..src]
        decreases n
      {
        n, k := n - 2, k - 1;
        Copy2(dst, data, src, head, src0 + 1);
        dst, src := dst + 2, src + 2;
      }
      k := n / 16;
      while n != 0
        invariant 0 <= k && n == 16 * k
        invariant src + n == end && dst + n == start + 2 + Even(count) && src > src0
        invariant buf[..dst] == head + data[src0 + 1..src]
        decreases n
      {
        n, k := n - 16, k - 1;
        Copy16(dst, data, src, head, src0 + 1);
        dst, src := dst + 16, src + 16;
      }
    }

    // One chunk of __cb_writeRegs.
    method RegsChunk(start: nat, h: U32, count: nat, data: seq<U32>, src0: nat) returns (dst: nat)
      requires 1 <= count && start + 2 + Even(count) <= buf.Length && src0 + 1 + Even(count) <= |data|
      modifies buf
      ensures dst == start + 2 + Even(count)
      ensures buf[..dst] == old(buf[..start]) + [data[src0], h] + data[src0 + 1..src0 + 1 + Even(count)]
    {
      var src, n := src0 + 1, count / 2;
      BeginChunk(start, data[src0], h);
      dst := start + 2;
      ghost var head := buf[..dst];
      while n != 0
        invariant 0 <= n && src + 2 * n == src0 + 1 + Even(count) && dst + 2 * n == start + 2 + Even(count)
        invariant src > src0
        invariant buf[..dst] == head + data[src0 + 1..src]
      {
        n := n - 1;
        Copy2(dst, data, src, head, src0 + 1);
        dst, src := dst + 2, src + 2;
      }
    }

    // One chunk of __cb_fillRegs.
    method FillChunk(start: nat, h: U32, count: nat, value: U32) returns (dst: nat)
      requires 1 <= count && start + 2 + Even(count) <= buf.Length
      modifies buf
      ensures dst == start + 2 + Even(count)
      ensures buf[..dst] == old(buf[..start]) + [value, h] + Repeat(value, Even(count))
    {
      var n := count / 2;
      BeginChunk(start, value, h);
      dst := start + 2;
      ghost var head, same := buf[..dst], Repeat(value, Even(count));
      while n != 0
        invariant 0 <= n && dst + 2 * n == start + 2 + Even(count)
        invariant buf[..dst] == head + same[..Even(count) - 2 * n]
      {
        n := n - 1;
        Copy2(dst, [value, value], 0, buf[..dst], 0);
        assert same[..Even(count) - 2 * n] == same[..Even(count) - 2 * n - 2] + [value, value];
        dst := dst + 2;
      }
    }

    /** When the test for `room` words is right for a buffer filled up to `at` (RoomTestRight). */
    predicate TestIsRight(at: nat, room: nat) {
      var end := base + 4 * at + 4 * room;
      end < 0x1_0000_0000 || Low32(end) >= base + 4 * buf.Length
    }

    /** The test for `room` words, in 32-bit unsigned address arithmetic. */
    predicate NoRoom(room: nat)
      reads this
    {
      Low32(base + 4 * cur + 4 * room) >= Low32(base + 4 * buf.Length)
    }

    // The head of each burst writer: a buffer without room becomes a full one.
    method TakeRoom(room: nat) returns (ok: bool)
      requires Valid() && TestIsRight(cur, room)
      modifies this`cur
      ensures Valid() && ok == (old(cur) + room < buf.Length)
      ensures cur == if ok then old(cur) else buf.Length
    {
      RoomTestRight(base, cur, room, buf.Length);
      ok := !NoRoom(room);
      if !ok {
        cur := buf.Length;
      }
    }

    // One turn of the loop of __cb_multiWriteReg. Before it the buffer means `m` and then the first `offset` values.
    method MultiTurn(dst0: nat, addr: nat, offset: nat, n: nat, data: seq<U32>, ghost m: seq<Write>) returns (dst: nat)
      requires addr < 0x1_0000 && 1 <= n <= 128 && Even(n) == Padded(n - 1)
      requires dst0 + 2 + Even(n) <= buf.Length && offset + n <= |data| && offset + 1 + Even(n) <= |data|
      requires Interp(buf[..dst0]) == Some(m + BurstWrites(addr, false, data[..offset]))
      modifies buf
      ensures dst == dst0 + 2 + Even(n)
      ensures Interp(buf[..dst]) == Some(m + BurstWrites(addr, false, data[..offset + n]))
    {
      hide Interp, Even, Header, BurstWrites;
      ghost var words, tail := buf[..dst0], data[offset + 1..offset + 1 + Even(n)];
      dst := MultiChunk(dst0, Header(addr, 0xf, n - 1, false), n, data, offset);
      BurstGrows(words, m, addr, false, data[..offset], data[offset..offset + n], tail);
      assert data[..offset] + data[offset..offset + n] == data[..offset + n];
    }

    method MultiWriteReg(addr: nat, count: nat, data: seq<U32>)
      requires Valid() && addr < 0x1_0000 && TestIsRight(cur, BurstRoom(count)) && |data| >= Readable(count)
      modifies this`cur, buf
      ensures Valid()
      ensures cur == if old(cur) + BurstRoom(count) < buf.Length then old(cur) + BurstLength(count) else buf.Length
      ensures Enabled() ==> Meaning() == old(Meaning()) + BurstWrites(addr, false, data[..count])
    {
      hide Interp, BurstLength, BurstRoom, Even, BurstWrites;
      var ok := TakeRoom(BurstRoom(count));
      if !ok {
        return;
      }
      BurstFits(count);
      ghost var m := Meaning();
      var dst, offset := cur, 0;
      ghost var q, done := 0, 0;
      NoBurst(m, addr, false, data);
      while offset < count
        invariant offset == 128 * q && done == (if offset < count then offset else count)
        invariant cur == old(cur) && dst == cur + BurstLength(done)
        invariant dst <= buf.Length && Interp(buf[..dst]) == Some(m + BurstWrites(addr, false, data[..done]))
      {
        ChunkStep(q, offset, count);
        dst := MultiTurn(dst, addr, offset, ChunkSize(offset, count), data, m);
        done := offset + ChunkSize(offset, count);
        offset, q := offset + 0x80, q + 1;
      }
      cur := dst;
    }

    // One turn of the loop of __cb_writeRegs. Before it the buffer means `m` and then the first `offset` values.
    method RegsTurn(dst0: nat, addr: nat, offset: nat, n: nat, data: seq<U32>, ghost m: seq<Write>) returns (dst: nat)
      requires addr + offset < 0x1_0000 && 1 <= n <= 128 && Even(n) == Padded(n - 1)
      requires dst0 + 2 + Even(n) <= buf.Length && offset + n <= |data| && offset + 1 + Even(n) <= |data|
      requires Interp(buf[..dst0]) == Some(m + BurstWrites(addr, true, data[..offset]))
      modifies buf
      ensures dst == dst0 + 2 + Even(n)
      ensures Interp(buf[..dst]) == Some(m + BurstWrites(addr, true, data[..offset + n]))
    {
      hide Interp, Even, Header, BurstWrites;
      ghost var words, tail := buf[..dst0], data[offset + 1..offset + 1 + Even(n)];
      dst := RegsChunk(dst0, Header(addr + offset, 0xf, n - 1, true), n, data, offset);
      BurstGrows(words, m, addr, true, data[..offset], data[offset..offset + n], tail);
      assert data[..offset] + data[offset..offset + n] == data[..offset + n];
    }

    method WriteRegs(addr: nat, count: nat, data: seq<U32>)
      requires Valid() && addr + count <= 0x1_0000 && TestIsRight(cur, BurstRoom(count)) && |data| >= Readable(count)
      modifies this`cur, buf
      ensures Valid()
      ensures cur == if old(cur) + BurstRoom(count) < buf.Length then old(cur) + BurstLength(count) else buf.Length
      ensures Enabled() ==> Meaning() == old(Meaning()) + BurstWrites(addr, true, data[..count])
    {
      hide Interp, BurstLength, BurstRoom, Even, BurstWrites;
      var ok := TakeRoom(BurstRoom(count));
      if !ok {
        return;
      }
      BurstFits(count);
      ghost var m := Meaning();
      var dst, offset := cur, 0;
      ghost var q, done := 0, 0;
      NoBurst(m, addr, true, data);
      while offset < count
        invariant offset == 128 * q && done == (if offset < count then offset else count)
        invariant cur == old(cur) && dst == cur + BurstLength(done)
        invariant dst <= buf.Length && Interp(buf[..dst]) == Some(m + BurstWrites(addr, true, data[..done]))
      {
        ChunkStep(q, offset, count);
        dst := RegsTurn(dst, addr, offset, ChunkSize(offset, count), data, m);
        done := offset + ChunkSize(offset, count);
        offset, q := offset + 0x80, q + 1;
      }
      cur := dst;
    }

    // One turn of the loop of __cb_fillRegs. Before it the buffer means `m` and then `offset` times the value.
    method FillTurn(dst0: nat, addr: nat, offset: nat, n: nat, value: U32, ghost m: seq<Write>) returns (dst: nat)
      requires addr + offset < 0x1_0000 && 1 <= n <= 128 && Even(n) == Padded(n - 1)
      requires dst0 + 2 + Even(n) <= buf.Length
      requires Interp(buf[..dst0]) == Some(m + BurstWrites(addr, true, Repeat(value, offset)))
      modifies buf
      ensures dst == dst0 + 2 + Even(n)
      ensures Interp(buf[..dst]) == Some(m + BurstWrites(addr, true, Repeat(value, offset + n)))
    {
      hide Interp, Even, Header, BurstWrites;
      ghost var words, tail := buf[..dst0], Repeat(value, Even(n));
      dst := FillChunk(dst0, Header(addr + offset, 0xf, n - 1, true), n, value);
      BurstGrows(words, m, addr, true, Repeat(value, offset), Repeat(value, n), tail);
      assert Repeat(value, offset) + Repeat(value, n) == Repeat(value, offset + n);
    }

    method FillRegs(addr: nat, count: nat, value: U32)
      requires Valid() && addr + count <= 0x1_0000 && TestIsRight(cur, BurstRoom(count))
      modifies this`cur, buf
      ensures Valid()
      ensures cur == if old(cur) + BurstRoom(count) < buf.Length then old(cur) + BurstLength(count) else buf.Length
      ensures Enabled() ==> Meaning() == old(Meaning()) + BurstWrites(addr, true, Repeat(value, count))
    {
      hide Interp, BurstLength, BurstRoom, Even, BurstWrites;
      var ok := TakeRoom(BurstRoom(count));
      if !ok {
        return;
      }
      BurstFits(count);
      ghost var m := Meaning();
      var dst, offset := cur, 0;
      ghost var q, done := 0, 0;
      NoBurst(m, addr, true, []);
      while offset < count
        invariant offset == 128 * q && done == (if offset < count then offset else count)
        invariant cur == old(cur) && dst == cur + BurstLength(done)
        invariant dst <= buf.Length && Interp(buf[..dst]) == Some(m + BurstWrites(addr, true, Repeat(value, done)))
      {
        ChunkStep(q, offset, count);
        dst := FillTurn(dst, addr, offset, ChunkSize(offset, count), value, m);
        done := offset + ChunkSize(offset, count);
        offset, q := offset + 0x80, q + 1;
      }
      cur := dst;
    }

    method AddDummyWrite(addr: nat, count: nat)
      requires Valid() && addr < 0x1_0000 && count <= 2048 && TestIsRight(cur, count + 2)
      modifies this`cur, buf
      ensures Valid()
      ensures cur == if old(cur) + count + 2 >= buf.Length then buf.Length
                     else if count == 0 then old(cur) else old(cur) + 2 + Padded(count - 1)
      ensures Enabled() ==> ExtendedByDummies(old(Meaning()), Meaning(), addr, count)
    {
      hide Interp, Header, ExtendedByDummies;
      var ok := TakeRoom(count + 2);
      if ok {
        if count == 0 {
          NoDummies(Meaning(), addr);
        } else {
          PutDummies(addr, count - 1);
        }
      }
    }

    // A packet without byte enables, whose extra words stay as they are.
    method PutDummies(addr: nat, extra: nat)
      requires Valid() && addr < 0x1_0000 && extra < 2048 && cur + extra + 3 < buf.Length
      modifies this`cur, buf
      ensures Valid() && cur == old(cur) + 2 + Padded(extra) && Enabled()
      ensures ExtendedByDummies(old(Meaning()), Meaning(), addr, extra + 1)
    {
      hide Interp, Header, DummyHeader, ExtendedByDummies;
      ghost var before := buf[..cur];
      DummyHeaderRight(addr, extra);
      BeginChunk(cur, 0, DummyHeader(addr, extra));
      cur := cur + 2;
      if extra % 2 != 0 {
        cur := cur + extra + 1;
      } else {
        cur := cur + extra;
      }
      ghost var packet := buf[|before|..cur];
      assert packet[1] == buf[..|before| + 2][|before| + 1];
      assert buf[..cur] == before + packet;
      DummyAppend(before, packet, addr, extra);
    }

    method Perform(c: Call)
      requires Valid() && c.Ok() && TestIsRight(cur, c.Room())
      modifies this`cur, buf
      ensures Valid() && old(cur) <= cur
      ensures Enabled() ==> old(Enabled())
      ensures Enabled() ==> SameEffect(Meaning(), old(Meaning()) + c.Requests())
    {
      hide Interp, BurstLength, BurstRoom, BurstWrites;
      ghost var m := if Enabled() then Meaning() else [];
      if !c.Reg? {
        BurstFits(c.count);
      }
      match c {
        case Reg(addr, data, be) => WriteReg(addr, data, be);
        case Multi(addr, count, data) => MultiWriteReg(addr, count, data);
        case Regs(addr, count, data) => WriteRegs(addr, count, data);
        case Fill(addr, count, value) => FillRegs(addr, count, value);
        case Dummy(addr, count) =>
          AddDummyWrite(addr, count);
          if Enabled() {
            assert m + c.Requests() == m;
            forall r ensures ApplyAll(r, Meaning()) == ApplyAll(r, m) {
              DummiesChangeNothing(r, m, Meaning(), addr, count);
            }
          }
      }
    }

    /**
     Any run of calls: unless the buffer fills up on the way, the hardware that reads the buffer ends up with the
     registers that the requested writes, in order, would give. A buffer that is full stays full.
     */
    method Run(calls: seq<Call>)
      requires Valid()
      requires forall k :: 0 <= k < |calls| ==> calls[k].Ok()
      requires forall k, at :: 0 <= k < |calls| && cur <= at <= buf.Length ==> TestIsRight(at, calls[k].Room())
      modifies this`cur, buf
      ensures Valid() && old(cur) <= cur && (Enabled() ==> old(Enabled()))
      ensures Enabled() ==> SameEffect(Meaning(), old(Meaning()) + AllRequests(calls))
    {
      hide Interp, SameEffect, AllRequests;
      ghost var m := if Enabled() then Meaning() else [];
      NoRequests(m);
      for i := 0 to |calls|
        invariant Valid() && old(cur) <= cur && (Enabled() ==> old(Enabled()))
        invariant Enabled() ==> SameEffect(Meaning(), m + AllRequests(calls[..i]))
      {
        ghost var before := if Enabled() then Meaning() else [];
        Perform(calls[i]);
        ghost var done := AllRequests(calls[..i]);
        assert calls[..i + 1] == calls[..i] + [calls[i]];
        AllRequestsMore(calls[..i], calls[i]);
        if Enabled() {
          SameEffectMore(before, m, done, calls[i].Requests(), Meaning());
        }
      }
      assert calls[..|calls|] == calls;
    }
  }
}
