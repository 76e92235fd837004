/**
 What the words of a command buffer mean to the hardware, and that the meaning of a buffer is put together from the
 meanings of its parts.

 A packet is a data word, a header word, and as many extra data words as the header says, padded to an even number.
 The header holds the register address in bits 0-15, the byte enables in bits 16-19, the number of extra words from
 bit 20 on, and in bit 31 whether the extra words go to consecutive registers. Its fields do not overlap, so combining
 them with `|` is adding them up.
 */
module CommandStream {
  import opened Bytes
  import opened Wrappers
  import opened Words

  datatype Write = Write(addr: nat, be: nat, data: U32)

  function Header(addr: nat, be: nat, extra: nat, consecutive: bool): (h: U32)
    requires addr < 0x1_0000 && be < 16 && extra < 2048
    ensures AddrOf(h) == addr && EnablesOf(h) == be && ExtraOf(h) == extra && ConsecutiveOf(h) == consecutive
  {
    addr + be * 0x1_0000 + extra * 0x10_0000 + if consecutive then 0x8000_0000 else 0
  }

  function AddrOf(h: U32): nat { h % 0x1_0000 }

  function EnablesOf(h: U32): nat { h / 0x1_0000 % 16 }

  function ExtraOf(h: U32): nat { h / 0x10_0000 % 2048 }

  predicate ConsecutiveOf(h: U32) { h / 0x8000_0000 == 1 }

  /** Rounded up to an even number. */
  function Padded(n: nat): (r: nat)
    ensures n <= r <= n + 1 && r % 2 == 0
  {
    n + n % 2
  }

  /** The register writes of one packet with header `h`. */
  function PacketWrites(h: U32, payload: seq<U32>): seq<Write> {
    seq(|payload|, i requires 0 <= i < |payload| =>
      Write(AddrOf(h) + (if ConsecutiveOf(h) then i else 0), EnablesOf(h), payload[i]))
  }

  predicate StartsWithPacket(words: seq<U32>) {
    |words| >= 2 && |words| >= PacketLength(words)
  }

  function PacketLength(words: seq<U32>): (n: nat)
    requires |words| >= 2
    ensures n >= 2
  {
    2 + Padded(ExtraOf(words[1]))
  }

  function FirstPacket(words: seq<U32>): seq<Write>
    requires StartsWithPacket(words)
  {
    PacketWrites(words[1], [words[0]] + words[2..2 + ExtraOf(words[1])])
  }

  /** The register writes of a buffer, in order, or nothing if it does not end with a whole packet. */
  function Interp(words: seq<U32>): Option<seq<Write>>
    decreases |words|
  {
    if words == [] then Some([])
    else if !StartsWithPacket(words) then None
    else
      var rest := Interp(words[PacketLength(words)..]);
      if rest.None? then None else Some(FirstPacket(words) + rest.value)
  }

  lemma FirstPacketAppend(a: seq<U32>, b: seq<U32>)
    requires StartsWithPacket(a)
    ensures StartsWithPacket(a + b) && PacketLength(a + b) == PacketLength(a) && FirstPacket(a + b) == FirstPacket(a)
    ensures (a + b)[PacketLength(a)..] == a[PacketLength(a)..] + b
  {
    var extra := ExtraOf(a[1]);
    assert (a + b)[2..2 + extra] == a[2..2 + extra];
  }

  /** The meaning of a buffer followed by another is the writes of the one, then the writes of the other. */
  lemma {:induction false} InterpAppend(a: seq<U32>, b: seq<U32>)
    requires Interp(a).Some?
    ensures Interp(a + b) == if Interp(b).None? then None else Some(Interp(a).value + Interp(b).value)
    decreases |a|
  {
    hide FirstPacket, PacketLength;
    if a == [] {
      assert a + b == b;
      assert Interp(b).Some? ==> [] + Interp(b).value == Interp(b).value;
    } else {
      FirstPacketAppend(a, b);
      var rest := a[PacketLength(a)..];
      InterpAppend(rest, b);
      if Interp(b).Some? {
        var first, x, y := FirstPacket(a), Interp(rest).value, Interp(b).value;
        assert (first + x) + y == first + (x + y);
      }
    }
  }

  /** The writes asked for by a burst: `data` to one register, or to consecutive ones. */
  function BurstWrites(addr: nat, consecutive: bool, data: seq<U32>): (r: seq<Write>)
    ensures |r| == |data|
  {
    seq(|data|, i requires 0 <= i < |data| => Write(if consecutive then addr + i else addr, 0xf, data[i]))
  }

  /** One burst packet of `count` words, with its padding word when `count` is even, means `count` register writes. */
  lemma BurstPacket(addr: nat, consecutive: bool, count: nat, words: seq<U32>)
    requires addr < 0x1_0000 && 1 <= count <= 128
    requires |words| == 2 + Padded(count - 1) && words[1] == Header(addr, 0xf, count - 1, consecutive)
    ensures Interp(words) == Some(BurstWrites(addr, consecutive, [words[0]] + words[2..1 + count]))
  {
    assert words[PacketLength(words)..] == [];
    var payload := [words[0]] + words[2..1 + count];
    assert PacketWrites(words[1], payload) == BurstWrites(addr, consecutive, payload);
    assert PacketWrites(words[1], payload) + [] == PacketWrites(words[1], payload);
  }

  lemma SinglePacket(addr: nat, be: nat, data: U32)
    requires addr < 0x1_0000 && be < 16
    ensures Interp([data, Header(addr, be, 0, false)]) == Some([Write(addr, be, data)])
  {
    var words := [data, Header(addr, be, 0, false)];
    assert words[PacketLength(words)..] == [];
    assert FirstPacket(words) + [] == [Write(addr, be, data)];
  }

  /** A burst cut in two: the second part starts at the next register, if the registers are consecutive. */
  lemma BurstCut(addr: nat, consecutive: bool, a: seq<U32>, b: seq<U32>)
    ensures BurstWrites(addr, consecutive, a) + BurstWrites(if consecutive then addr + |a| else addr, consecutive, b)
            == BurstWrites(addr, consecutive, a + b)
  {
  }

  lemma NoBurst(m: seq<Write>, addr: nat, consecutive: bool, data: seq<U32>)
    ensures m + BurstWrites(addr, consecutive, data[..0]) == m
  {
  }

  /**
   A chunk written after a buffer that means `m` and then a burst of `done`: together they mean `m` and then a burst of
   `done` followed by the chunk. The tail may hold one padding word more than the chunk needs.
   */
  lemma BurstGrows(words: seq<U32>, m: seq<Write>, addr: nat, consecutive: bool, done: seq<U32>, chunk: seq<U32>,
                   tail: seq<U32>)
    requires Interp(words) == Some(m + BurstWrites(addr, consecutive, done))
    requires 1 <= |chunk| <= 128 && |tail| == Padded(|chunk| - 1) && tail[..|chunk| - 1] == chunk[1..]
    requires (if consecutive then addr + |done| else addr) < 0x1_0000
    ensures var h := Header(if consecutive then addr + |done| else addr, 0xf, |chunk| - 1, consecutive);
            Interp(words + [chunk[0], h] + tail) == Some(m + BurstWrites(addr, consecutive, done + chunk))
  {
    hide Interp, BurstWrites, Header, Padded;
    var at := if consecutive then addr + |done| else addr;
    var packet := [chunk[0], Header(at, 0xf, |chunk| - 1, consecutive)] + tail;
    BurstPacket(at, consecutive, |chunk|, packet);
    assert [packet[0]] + packet[2..1 + |chunk|] == chunk;
    InterpAppend(words, packet);
    BurstCut(addr, consecutive, done, chunk);
    assert words + packet == words + [chunk[0], Header(at, 0xf, |chunk| - 1, consecutive)] + tail;
    var x, y := BurstWrites(addr, consecutive, done), BurstWrites(at, consecutive, chunk);
    assert (m + x) + y == m + (x + y);
  }

  // `b` is `a` followed by `count` writes that enable no byte.
  ghost predicate ExtendedByDummies(a: seq<Write>, b: seq<Write>, addr: nat, count: nat) {
    a <= b && |b| == |a| + count && forall k :: |a| <= k < |b| ==> b[k].addr == addr && b[k].be == 0
  }

  /** A header without byte enables, whatever the words after it happen to be. */
  lemma DummyPacket(words: seq<U32>, addr: nat, extra: nat)
    requires addr < 0x1_0000 && extra < 2048
    requires |words| == 2 + Padded(extra) && words[1] == Header(addr, 0, extra, false)
    ensures Interp(words).Some? && ExtendedByDummies([], Interp(words).value, addr, extra + 1)
  {
    assert words[PacketLength(words)..] == [];
    assert FirstPacket(words) + [] == FirstPacket(words);
    assert Interp(words) == Some(FirstPacket(words));
  }

  lemma DummyAppend(a: seq<U32>, packet: seq<U32>, addr: nat, extra: nat)
    requires Interp(a).Some? && addr < 0x1_0000 && extra < 2048
    requires |packet| == 2 + Padded(extra) && packet[1] == Header(addr, 0, extra, false)
    ensures Interp(a + packet).Some? && ExtendedByDummies(Interp(a).value, Interp(a + packet).value, addr, extra + 1)
  {
    hide Interp;
    DummyPacket(packet, addr, extra);
    InterpAppend(a, packet);
  }

  /** `addr | (extra << 20)` in 32 bits, the header of such a packet. */
  function DummyHeader(addr: nat, extra: nat): U32 {
    Low32(addr + extra * 0x10_0000)
  }

  /** It is the header of that many extra words exactly when their number fits into its eleven bits. */
  lemma DummyHeaderRight(addr: nat, extra: nat)
    requires addr < 0x1_0000
    ensures var h := DummyHeader(addr, extra);
            && AddrOf(h) == addr && EnablesOf(h) == 0
            && (ExtraOf(h) == extra && !ConsecutiveOf(h) <==> extra < 2048)
            && (extra < 2048 ==> h == Header(addr, 0, extra, false))
  {
    var h := DummyHeader(addr, extra);
    var k := (addr + extra * 0x10_0000) / TWO32;
    assert h == addr + 0x10_0000 * (extra - 4096 * k);
  }

  lemma NoDummies(a: seq<Write>, addr: nat)
    ensures ExtendedByDummies(a, a, addr, 0)
  {
  }

  // ---- registers ----

  datatype Reg = Reg(b0: Byte, b1: Byte, b2: Byte, b3: Byte)

  type RegFile = map<nat, Reg>

  function RegOf(w: U32): Reg {
    Reg(w % 0x100, w / 0x100 % 0x100, w / 0x1_0000 % 0x100, w / 0x100_0000)
  }

  function Get(r: RegFile, addr: nat): Reg {
    if addr in r then r[addr] else Reg(0, 0, 0, 0)
  }

  /** The bytes that `be` enables are taken from `data`. */
  function Merge(reg: Reg, be: nat, data: Reg): Reg {
    Reg(if be % 2 == 1 then data.b0 else reg.b0,
        if be / 2 % 2 == 1 then data.b1 else reg.b1,
        if be / 4 % 2 == 1 then data.b2 else reg.b2,
        if be / 8 % 2 == 1 then data.b3 else reg.b3)
  }

  function Apply(r: RegFile, w: Write): RegFile {
    if w.be == 0 then r else r[w.addr := Merge(Get(r, w.addr), w.be, RegOf(w.data))]
  }

  function ApplyAll(r: RegFile, ws: seq<Write>): RegFile
    decreases |ws|
  {
    if ws == [] then r else ApplyAll(Apply(r, ws[0]), ws[1..])
  }

  lemma {:induction false} ApplyAppend(r: RegFile, a: seq<Write>, b: seq<Write>)
    ensures ApplyAll(r, a + b) == ApplyAll(ApplyAll(r, a), b)
    decreases |a|
  {
    if a == [] {
      assert a + b == b;
    } else {
      assert (a + b)[1..] == a[1..] + b;
      ApplyAppend(Apply(r, a[0]), a[1..], b);
    }
  }

  /** After a burst to consecutive registers each holds its word, and all others are as they were. */
  lemma {:induction false} BurstFillsRegisters(r: RegFile, addr: nat, data: seq<U32>)
    ensures var q := ApplyAll(r, BurstWrites(addr, true, data));
            && (forall k :: 0 <= k < |data| ==> Get(q, addr + k) == RegOf(data[k]))
            && (forall a: nat :: !(addr <= a < addr + |data|) ==> Get(q, a) == Get(r, a))
    decreases |data|
  {
    hide RegOf, ApplyAll;
    if data == [] {
      forall a: nat
        ensures Get(ApplyAll(r, BurstWrites(addr, true, [])), a) == Get(r, a)
      {
        Untouched(r, BurstWrites(addr, true, []), a);
      }
    } else {
      var n := |data| - 1;
      var w := Write(addr + n, 0xf, data[n]);
      BurstFillsRegisters(r, addr, data[..n]);
      assert BurstWrites(addr, true, data) == BurstWrites(addr, true, data[..n]) + [w];
      ApplyAppend(r, BurstWrites(addr, true, data[..n]), [w]);
      Apply1(ApplyAll(r, BurstWrites(addr, true, data[..n])), w);
    }
  }

  /** After a burst to one register it holds the last word, and all others are as they were. */
  lemma BurstLeavesLast(r: RegFile, addr: nat, data: seq<U32>)
    requires data != []
    ensures var q := ApplyAll(r, BurstWrites(addr, false, data));
            Get(q, addr) == RegOf(data[|data| - 1]) && forall a: nat :: a != addr ==> Get(q, a) == Get(r, a)
  {
    hide RegOf, ApplyAll;
    var n := |data| - 1;
    var before, w := BurstWrites(addr, false, data[..n]), Write(addr, 0xf, data[n]);
    var ws := BurstWrites(addr, false, data);
    assert ws == before + [w];
    ApplyAppend(r, before, [w]);
    Apply1(ApplyAll(r, before), w);
    forall a: nat | a != addr
      ensures Get(ApplyAll(r, ws), a) == Get(r, a)
    {
      Untouched(r, ws, a);
    }
  }

  /** The registers end up the same, whatever they were before. */
  ghost predicate SameEffect(a: seq<Write>, b: seq<Write>) {
    forall r :: ApplyAll(r, a) == ApplyAll(r, b)
  }

  lemma SameEffectMore(before: seq<Write>, m: seq<Write>, done: seq<Write>, more: seq<Write>, after: seq<Write>)
    requires SameEffect(before, m + done) && SameEffect(after, before + more)
    ensures SameEffect(after, m + (done + more))
  {
    assert m + (done + more) == (m + done) + more;
    forall r ensures ApplyAll(r, after) == ApplyAll(r, (m + done) + more) {
      ApplyAppend(r, before, more);
      ApplyAppend(r, m + done, more);
    }
  }

  /** Dummy writes change no register. */
  lemma {:induction false} DummiesChangeNothing(r: RegFile, a: seq<Write>, b: seq<Write>, addr: nat, count: nat)
    requires ExtendedByDummies(a, b, addr, count)
    ensures ApplyAll(r, b) == ApplyAll(r, a)
    decreases count
  {
    if count == 0 {
      assert a == b;
    } else {
      var c := b[..|b| - 1];
      DummiesChangeNothing(r, a, c, addr, count - 1);
      ApplyAppend(r, c, [b[|b| - 1]]);
      assert b == c + [b[|b| - 1]];
    }
  }

  // Unfolding a few writes.
  lemma Apply2(r: RegFile, a: Write, b: Write)
    ensures ApplyAll(r, [a]) == Apply(r, a) && ApplyAll(r, [a, b]) == Apply(Apply(r, a), b)
  {
    assert [a, b] == [a] + [b];
    ApplyAppend(r, [a], [b]);
    Apply1(r, a);
    Apply1(Apply(r, a), b);
  }

  lemma Apply1(r: RegFile, a: Write)
    ensures ApplyAll(r, [a]) == Apply(r, a)
  {
    assert [a][1..] == [];
  }

  lemma {:induction false} Untouched(r: RegFile, ws: seq<Write>, addr: nat)
    requires forall k :: 0 <= k < |ws| ==> ws[k].addr != addr
    ensures Get(ApplyAll(r, ws), addr) == Get(r, addr)
    decreases |ws|
  {
    if ws != [] {
      Untouched(Apply(r, ws[0]), ws[1..], addr);
    }
  }

  /** A register is what the last group of writes that touches it makes of it. */
  lemma LastGroup(r: RegFile, before: seq<Write>, group: seq<Write>, after: seq<Write>, addr: nat)
    requires forall k :: 0 <= k < |after| ==> after[k].addr != addr
    ensures Get(ApplyAll(r, before + group + after), addr) == Get(ApplyAll(ApplyAll(r, before), group), addr)
  {
    ApplyAppend(r, before + group, after);
    ApplyAppend(r, before, group);
    Untouched(ApplyAll(r, before + group), after, addr);
  }
}
