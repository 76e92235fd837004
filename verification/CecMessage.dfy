/** Extended headers as a map from types to data, and where the parts of a message lie (cec_Message.cpp). */
module CecLayout {
  import opened Bytes
  import opened Wrappers
  import opened Words

  const CEC_EXHEADER_NUM_MAX := 16
  const CEC_EXHEADER_SIZE_MAX := 8 * 1024
  const CEC_MESSSIZEMAX_DEFAULT := 100 * 1024
  const MESSAGE_BODY_SIZE_MAX := 96 * 1024

  /** The size of CecMessageHeader, with enumerations of one byte. */
  const HEADER_SIZE := 112
  const EXHEADER_CORE_SIZE := 8
  const HASH_SIZE := 32

  /** An extended header: its data may go on after the part that belongs to it. */
  datatype ExHeader = ExHeader(exType: U32, len: nat, data: seq<Byte>)

  predicate Proper(h: ExHeader) {
    h.len <= |h.data| && h.len <= CEC_EXHEADER_SIZE_MAX
  }

  predicate AllProper(hs: seq<ExHeader>) {
    forall i :: 0 <= i < |hs| ==> Proper(hs[i])
  }

  function Contents(h: ExHeader): seq<Byte>
    requires h.len <= |h.data|
  {
    h.data[..h.len]
  }

  function RoundUp4(x: nat): nat {
    (x + 3) / 4 * 4
  }

  lemma RoundedUp(x: nat)
    ensures x <= RoundUp4(x) < x + 4 && RoundUp4(x) % 4 == 0
  {
  }

  // ---- extended headers as a map ----

  predicate Unique(hs: seq<ExHeader>) {
    forall i, j :: 0 <= i < j < |hs| ==> hs[i].exType != hs[j].exType
  }

  function Lookup(hs: seq<ExHeader>, exType: U32): Option<ExHeader> {
    if hs == [] then None
    else if hs[0].exType == exType then Some(hs[0])
    else Lookup(hs[1..], exType)
  }

  /** Exchanges the data of a type that is there, or adds it at the end. */
  function Put(hs: seq<ExHeader>, h: ExHeader): seq<ExHeader> {
    if hs == [] then [h]
    else if hs[0].exType == h.exType then [h] + hs[1..]
    else [hs[0]] + Put(hs[1..], h)
  }

  lemma {:induction false} LookupIsFirst(hs: seq<ExHeader>, exType: U32, i: nat)
    requires i <= |hs| && forall j :: 0 <= j < i ==> hs[j].exType != exType
    ensures Lookup(hs, exType) == Lookup(hs[i..], exType)
  {
    if i > 0 {
      LookupIsFirst(hs[1..], exType, i - 1);
      assert hs[1..][i - 1..] == hs[i..];
    }
  }

  lemma {:induction false} PutAt(hs: seq<ExHeader>, h: ExHeader, i: nat)
    requires i <= |hs| && forall j :: 0 <= j < i ==> hs[j].exType != h.exType
    requires i < |hs| ==> hs[i].exType == h.exType
    ensures Put(hs, h) == if i < |hs| then hs[i := h] else hs + [h]
  {
    if i > 0 {
      PutAt(hs[1..], h, i - 1);
      assert hs == [hs[0]] + hs[1..];
    }
  }

  /** What is put is found, and everything else stays as it was; no type comes twice. */
  lemma {:induction false} PutIsMapUpdate(hs: seq<ExHeader>, h: ExHeader, exType: U32)
    requires Unique(hs)
    ensures Unique(Put(hs, h)) && (forall g :: g in Put(hs, h) ==> g == h || g in hs)
    ensures Lookup(Put(hs, h), exType) == if exType == h.exType then Some(h) else Lookup(hs, exType)
  {
    if hs != [] && hs[0].exType != h.exType {
      PutIsMapUpdate(hs[1..], h, exType);
      var rest := Put(hs[1..], h);
      forall j | 0 <= j < |rest|
        ensures rest[j].exType != hs[0].exType
      {
        assert rest[j] in rest;
      }
      assert Put(hs, h)[1..] == Put(hs[1..], h);
    } else if hs != [] {
      assert ([h] + hs[1..])[1..] == hs[1..];
      LookupIsFirst(hs[1..], exType, 0);
    }
  }

  /** A new type takes one more place, a type that is there none. */
  lemma {:induction false} PutLength(hs: seq<ExHeader>, h: ExHeader)
    ensures |Put(hs, h)| == if Lookup(hs, h.exType).Some? then |hs| else |hs| + 1
  {
    if hs != [] && hs[0].exType != h.exType {
      PutLength(hs[1..], h);
    }
  }

  lemma NotThere(hs: seq<ExHeader>, exType: U32)
    requires forall j :: 0 <= j < |hs| ==> hs[j].exType != exType
    ensures Lookup(hs, exType).None?
  {
    LookupIsFirst(hs, exType, |hs|);
  }

  // ---- where things lie ----

  function ExHeaderSize(h: ExHeader): nat {
    EXHEADER_CORE_SIZE + RoundUp4(h.len)
  }

  function ExHeadersSize(hs: seq<ExHeader>): nat {
    if hs == [] then 0 else ExHeadersSize(hs[..|hs| - 1]) + ExHeaderSize(hs[|hs| - 1])
  }

  function Offset(hs: seq<ExHeader>, i: nat): nat
    requires i <= |hs|
  {
    HEADER_SIZE + ExHeadersSize(hs[..i])
  }

  lemma OffsetStep(hs: seq<ExHeader>, i: nat)
    requires i < |hs|
    ensures Offset(hs, i + 1) == Offset(hs, i) + ExHeaderSize(hs[i])
  {
    assert hs[..i + 1][..i] == hs[..i];
  }

  lemma {:induction false} OffsetsGrow(hs: seq<ExHeader>, i: nat, j: nat)
    requires i <= j <= |hs|
    ensures Offset(hs, i) <= Offset(hs, j)
    decreases j - i
  {
    if i < j {
      OffsetsGrow(hs, i, j - 1);
      OffsetStep(hs, j - 1);
    }
  }

  lemma {:induction false} OffsetBound(hs: seq<ExHeader>, i: nat)
    requires i <= |hs| && AllProper(hs)
    ensures Offset(hs, i) <= HEADER_SIZE + (CEC_EXHEADER_SIZE_MAX + EXHEADER_CORE_SIZE) * i
  {
    if i > 0 {
      OffsetBound(hs, i - 1);
      OffsetStep(hs, i - 1);
      assert RoundUp4(hs[i - 1].len) <= CEC_EXHEADER_SIZE_MAX;
    }
  }

  /** A block of bytes in a buffer. */
  predicate Holds(bytes: seq<Byte>, at: nat, block: seq<Byte>) {
    at + |block| <= |bytes| && bytes[at..at + |block|] == block
  }

  /** An extended header in the buffer: type, length and data; what fills it up is left open. */
  predicate HoldsExHeader(bytes: seq<Byte>, at: nat, h: ExHeader)
    requires Proper(h)
  {
    && at + ExHeaderSize(h) <= |bytes|
    && Holds(bytes, at, Write32Le(h.exType)) && Holds(bytes, at + 4, Write32Le(h.len))
    && Holds(bytes, at + EXHEADER_CORE_SIZE, Contents(h))
  }

  /** The extended headers lie one after the other. */
  ghost predicate HoldsExHeaders(bytes: seq<Byte>, hs: seq<ExHeader>, n: nat)
    requires n <= |hs| && AllProper(hs)
  {
    forall i :: 0 <= i < n ==> HoldsExHeader(bytes, Offset(hs, i), hs[i])
  }

  // ---- the reader ----

  datatype Part = Part(exType: nat, data: seq<Byte>)

  /** Reads the extended headers that lie between `at` and `end`, going by the lengths that are stored with them. */
  function ReadExHeaders(bytes: seq<Byte>, at: nat, end: nat): seq<Part>
    decreases end - at
  {
    if at + EXHEADER_CORE_SIZE > end || end > |bytes| then []
    else
      var len := Read32Le(bytes, at + 4);
      var next := at + EXHEADER_CORE_SIZE + RoundUp4(len);
      RoundedUp(len);
      if next > end then []
      else
        [Part(Read32Le(bytes, at), bytes[at + EXHEADER_CORE_SIZE..at + EXHEADER_CORE_SIZE + len])]
        + ReadExHeaders(bytes, next, end)
  }

  /** The sizes in the header say where the extended headers end, and where the body does. */
  function ReadMessage(bytes: seq<Byte>): Option<(seq<Part>, seq<Byte>)> {
    if |bytes| < HEADER_SIZE then None
    else
      var headerSize, bodySize := Read32Le(bytes, 8), Read32Le(bytes, 12);
      if headerSize + bodySize > |bytes| then None
      else Some((ReadExHeaders(bytes, HEADER_SIZE, headerSize), bytes[headerSize..headerSize + bodySize]))
  }

  function Parts(hs: seq<ExHeader>): seq<Part>
    requires AllProper(hs)
  {
    if hs == [] then [] else [Part(hs[0].exType, Contents(hs[0]))] + Parts(hs[1..])
  }

  lemma ReadsOne(bytes: seq<Byte>, at: nat, h: ExHeader, end: nat)
    requires Proper(h) && HoldsExHeader(bytes, at, h) && at + ExHeaderSize(h) <= end <= |bytes|
    ensures ReadExHeaders(bytes, at, end) ==
            [Part(h.exType, Contents(h))] + ReadExHeaders(bytes, at + ExHeaderSize(h), end)
  {
    hide Read32Le, Write32Le, RoundUp4;
    ReadsWhatIsWritten(bytes, at, h.exType);
    ReadsWhatIsWritten(bytes, at + 4, h.len);
    RoundedUp(h.len);
  }

  /** From header `i` on the reader finds what was laid out. */
  lemma {:induction false} ReadsExHeaders(bytes: seq<Byte>, hs: seq<ExHeader>, i: nat)
    requires i <= |hs| && AllProper(hs) && HoldsExHeaders(bytes, hs, |hs|)
    requires Offset(hs, |hs|) <= |bytes|
    ensures ReadExHeaders(bytes, Offset(hs, i), Offset(hs, |hs|)) == Parts(hs[i..])
    decreases |hs| - i
  {
    hide HoldsExHeader, Offset, ExHeaderSize, RoundUp4, Read32Le;
    if i < |hs| {
      ReadsExHeaders(bytes, hs, i + 1);
      OffsetStep(hs, i);
      OffsetsGrow(hs, i + 1, |hs|);
      ReadsOne(bytes, Offset(hs, i), hs[i], Offset(hs, |hs|));
      assert hs[i..][1..] == hs[i + 1..];
    } else {
      NothingToRead(bytes, Offset(hs, i));
    }
  }

  lemma NothingToRead(bytes: seq<Byte>, at: nat)
    ensures ReadExHeaders(bytes, at, at) == []
  {
  }
}

/** The message of cec_Message.cpp, whose setters keep the sizes in its header up to date. */
module CecMessages {
  import opened Bytes
  import opened CecLayout
  import opened Wrappers
  import opened Words

  datatype Result = Success | TooLarge | InvalidArgument | NotAuthorized | MisalignedSize | NoData

  /** The parts of the header that the sizes are not in. */
  const MAGIC_SIZE := 4
  const REST_SIZE := 96

  /** Where the identification of the message lies in the rest. */
  const ID_AT := 16
  const ID_SIZE := 8

  predicate IsEmptyId(id: seq<Byte>) {
    forall i :: 0 <= i < |id| ==> id[i] == 0
  }

  lemma IdBytes(rest: seq<Byte>)
    requires |rest| == REST_SIZE
    ensures IsEmptyId(rest[ID_AT..ID_AT + ID_SIZE]) <==> forall i :: 16 <= i < 24 ==> rest[i] == 0
  {
    var id := rest[ID_AT..ID_AT + ID_SIZE];
    assert forall i :: 0 <= i < |id| ==> id[i] == rest[16 + i];
    assert forall i :: 16 <= i < 24 ==> rest[i] == id[i - 16];
  }

  /** A call of one of the setters. */
  datatype Call =
    | SetHeader(exType: U32, len: nat, data: Option<seq<Byte>>)
    | SetBody(data: Option<seq<Byte>>, len: nat)
  {
    /** The data is there as far as the call says. */
    predicate Ok() {
      data.Some? ==> len <= |data.value|
    }

    /** The answer to a caller, of a message that may be changed or may not. */
    function Answer(mayChange: bool): Result {
      match this
      case SetHeader(_, _, _) =>
        if !mayChange then NotAuthorized
        else if len > CEC_EXHEADER_SIZE_MAX then TooLarge
        else if data.None? then InvalidArgument else Success
      case SetBody(_, _) =>
        if data.None? then InvalidArgument
        else if len % 4 != 0 then MisalignedSize
        else if len == 0 || len > MESSAGE_BODY_SIZE_MAX then TooLarge
        else if !mayChange then NotAuthorized else Success
    }

    function Headers(hs: seq<ExHeader>): seq<ExHeader> {
      if SetHeader? && Answer(true) == Success then Put(hs, ExHeader(exType, len, data.value)) else hs
    }

    function Body(body: seq<Byte>): seq<Byte>
      requires Ok()
    {
      if SetBody? && Answer(true) == Success then data.value[..len] else body
    }
  }

  /** The extended headers after some calls, on a message that may be changed. */
  function HeadersAfter(hs: seq<ExHeader>, calls: seq<Call>): seq<ExHeader>
    decreases |calls|
  {
    if calls == [] then hs else HeadersAfter(calls[0].Headers(hs), calls[1..])
  }

  function BodyAfter(body: seq<Byte>, calls: seq<Call>): seq<Byte>
    requires forall k :: 0 <= k < |calls| ==> calls[k].Ok()
    decreases |calls|
  {
    if calls == [] then body else BodyAfter(calls[0].Body(body), calls[1..])
  }

  /** What the last of the calls that sets this type, and may, has set it to. */
  function LastSet(calls: seq<Call>, exType: U32): Option<ExHeader> {
    if calls == [] then None
    else
      var c := calls[|calls| - 1];
      if c.SetHeader? && c.exType == exType && c.Answer(true) == Success
      then Some(ExHeader(exType, c.len, c.data.value))
      else LastSet(calls[..|calls| - 1], exType)
  }

  lemma {:induction false} OneMoreCall(hs: seq<ExHeader>, calls: seq<Call>)
    requires calls != []
    ensures var n := |calls| - 1;
            HeadersAfter(hs, calls) == calls[n].Headers(HeadersAfter(hs, calls[..n]))
    decreases |calls|
  {
    var n := |calls| - 1;
    if n > 0 {
      OneMoreCall(calls[0].Headers(hs), calls[1..]);
      assert calls[1..][..n - 1] == calls[..n][1..];
    }
  }

  /** After any calls a type has the data that was set last for it, and no type comes twice. */
  lemma {:induction false} LastSetIsFound(hs: seq<ExHeader>, calls: seq<Call>, exType: U32)
    requires Unique(hs)
    ensures Unique(HeadersAfter(hs, calls))
    ensures Lookup(HeadersAfter(hs, calls), exType)
            == if LastSet(calls, exType).Some? then LastSet(calls, exType) else Lookup(hs, exType)
    decreases |calls|
  {
    hide Unique, Put, Lookup;
    if calls != [] {
      var n := |calls| - 1;
      LastSetIsFound(hs, calls[..n], exType);
      OneMoreCall(hs, calls);
      if calls[n].SetHeader? && calls[n].Answer(true) == Success {
        PutIsMapUpdate(HeadersAfter(hs, calls[..n]),
                       ExHeader(calls[n].exType, calls[n].len, calls[n].data.value), exType);
      }
    }
  }

  lemma {:induction false} HeadersGrow(hs: seq<ExHeader>, calls: seq<Call>)
    ensures |hs| <= |HeadersAfter(hs, calls)|
    decreases |calls|
  {
    if calls != [] {
      HeadersGrow(calls[0].Headers(hs), calls[1..]);
      PutLength(hs, if calls[0].SetHeader? && calls[0].Answer(true) == Success
                    then ExHeader(calls[0].exType, calls[0].len, calls[0].data.value) else ExHeader(0, 0, []));
    }
  }

  lemma FirstCall(hs: seq<ExHeader>, body: seq<Byte>, calls: seq<Call>, i: nat)
    requires i < |calls| && forall k :: 0 <= k < |calls| ==> calls[k].Ok()
    ensures HeadersAfter(hs, calls[i..]) == HeadersAfter(calls[i].Headers(hs), calls[i + 1..])
    ensures BodyAfter(body, calls[i..]) == BodyAfter(calls[i].Body(body), calls[i + 1..])
    ensures |calls[i].Headers(hs)| <= |HeadersAfter(hs, calls[i..])|
  {
    hide Call.Headers, Call.Body;
    assert calls[i..][1..] == calls[i + 1..];
    HeadersGrow(calls[i].Headers(hs), calls[i + 1..]);
  }

  lemma NoCalls(hs: seq<ExHeader>, body: seq<Byte>, calls: seq<Call>)
    requires forall k :: 0 <= k < |calls| ==> calls[k].Ok()
    ensures HeadersAfter(hs, calls[|calls|..]) == hs && BodyAfter(body, calls[|calls|..]) == body
  {
  }

  class Message {
    var magic: seq<Byte>
    var messSize: U32
    var headerSize: U32
    var bodySize: U32
    var rest: seq<Byte>
    const mhex: array<ExHeader>
    var numOfExHeader: nat
    var flagInput: bool
    var messBodyLen: U32
    var messBody: Option<seq<Byte>>
    var hash: Option<seq<Byte>>

    /** The extended headers that are in use. */
    ghost function ExHeaders(): seq<ExHeader>
      reads this, mhex
      requires numOfExHeader <= mhex.Length
    {
      mhex[..numOfExHeader]
    }

    ghost predicate Valid()
      reads this, mhex
    {
      && mhex.Length == CEC_EXHEADER_NUM_MAX && numOfExHeader <= CEC_EXHEADER_NUM_MAX
      && |magic| == MAGIC_SIZE && |rest| == REST_SIZE
      && Unique(ExHeaders()) && AllProper(ExHeaders())
      && messBodyLen <= MESSAGE_BODY_SIZE_MAX && bodySize == messBodyLen
      && (if messBody.Some? then messBodyLen <= |messBody.value| else messBodyLen == 0)
      && (hash.Some? ==> |hash.value| >= HASH_SIZE)
    }

    /** The sizes in the header are those of what is laid out. */
    ghost predicate Sized()
      reads this, mhex
      requires Valid()
    {
      && headerSize == Offset(ExHeaders(), numOfExHeader)
      && messSize == headerSize + messBodyLen + HASH_SIZE
    }

    ghost function Body(): seq<Byte>
      reads this, mhex
      requires Valid()
    {
      if messBody.Some? then messBody.value[..messBodyLen] else []
    }

    /** A message that has been received, or has been given its identification, is not changed any more. */
    predicate MayChange(): (may: bool)
      reads this
      requires |rest| == REST_SIZE
      ensures may <==> !flagInput && forall i :: 16 <= i < 24 ==> rest[i] == 0
    {
      IdBytes(rest);
      !flagInput && IsEmptyId(rest[ID_AT..ID_AT + ID_SIZE])
    }

    constructor (magic: seq<Byte>)
      requires |magic| == MAGIC_SIZE
      ensures Valid() && fresh(mhex) && ExHeaders() == [] && messBody == None && hash == None && MayChange()
      ensures this.magic == magic && messSize == headerSize == bodySize == 0
    {
      this.magic, messSize, headerSize, bodySize := magic, 0, 0, 0;
      rest := seq(REST_SIZE, _ => 0);
      mhex := new ExHeader[CEC_EXHEADER_NUM_MAX](_ => ExHeader(0, 0, []));
      numOfExHeader, flagInput, messBodyLen, messBody, hash := 0, false, 0, None, None;
    }

    method CalcCecMessSize()
      requires Valid()
      modifies this`headerSize, this`messSize
      ensures Valid() && Sized()
    {
      var size := HEADER_SIZE;
      assert ExHeaders()[..0] == [];
      var i := 0;
      while i < numOfExHeader
        invariant 0 <= i <= numOfExHeader && Valid() && size == Offset(ExHeaders(), i)
      {
        OffsetStep(ExHeaders(), i);
        size := size + EXHEADER_CORE_SIZE;
        size := size + RoundUp4(mhex[i].len);
        i := i + 1;
      }
      OffsetBound(ExHeaders(), numOfExHeader);
      headerSize := size;
      messSize := headerSize + messBodyLen + HASH_SIZE;
    }

    method SetExHeaderWithoutCalc(exhType: U32, exhLen: nat, exhBody: Option<seq<Byte>>) returns (r: Result)
      requires Valid() && (exhBody.Some? ==> exhLen <= |exhBody.value|)
      requires exhLen <= CEC_EXHEADER_SIZE_MAX && exhBody.Some? ==>
                 numOfExHeader < CEC_EXHEADER_NUM_MAX || Lookup(ExHeaders(), exhType).Some?
      modifies this`numOfExHeader, mhex
      ensures Valid()
      ensures r == if exhLen > CEC_EXHEADER_SIZE_MAX then TooLarge
                   else if exhBody.None? then InvalidArgument else Success
      ensures ExHeaders() == if r == Success then Put(old(ExHeaders()), ExHeader(exhType, exhLen, exhBody.value))
                             else old(ExHeaders())
    {
      hide Put, Lookup, Unique, AllProper;
      if exhLen > CEC_EXHEADER_SIZE_MAX {
        return TooLarge;
      }
      if exhBody == None {
        return InvalidArgument;
      }
      ghost var h := ExHeader(exhType, exhLen, exhBody.value);
      ghost var before := ExHeaders();
      PutIsMapUpdate(before, h, exhType);
      PutIsProper(before, h);
      var i := 0;
      while i < numOfExHeader
        invariant 0 <= i <= numOfExHeader && mhex[..numOfExHeader] == before
        invariant forall j :: 0 <= j < i ==> before[j].exType != exhType
      {
        assert mhex[i] == before[i];
        if mhex[i].exType == exhType {
          PutAt(before, h, i);
          mhex[i] := mhex[i].(len := exhLen, data := exhBody.value);
          assert ExHeaders() == before[i := h];
          return Success;
        }
        i := i + 1;
      }
      PutAt(before, h, |before|);
      NotThere(before, exhType);
      mhex[numOfExHeader] := ExHeader(exhType, exhLen, exhBody.value);
      numOfExHeader := numOfExHeader + 1;
      assert ExHeaders() == before + [h];
      return Success;
    }

    /** Sets the data of a type; on success the sizes in the header fit. */
    method SetExHeader(exhType: U32, exhLen: nat, exhBody: Option<seq<Byte>>) returns (r: Result)
      requires Valid() && (exhBody.Some? ==> exhLen <= |exhBody.value|)
      requires MayChange() && exhLen <= CEC_EXHEADER_SIZE_MAX && exhBody.Some? ==>
                 numOfExHeader < CEC_EXHEADER_NUM_MAX || Lookup(ExHeaders(), exhType).Some?
      modifies this`numOfExHeader, this`headerSize, this`messSize, mhex
      ensures Valid()
      ensures r == if !MayChange() then NotAuthorized
                   else if exhLen > CEC_EXHEADER_SIZE_MAX then TooLarge
                   else if exhBody.None? then InvalidArgument else Success
      ensures r == Success ==>
                Sized() && ExHeaders() == Put(old(ExHeaders()), ExHeader(exhType, exhLen, exhBody.value))
      ensures r != Success ==>
                ExHeaders() == old(ExHeaders()) && headerSize == old(headerSize) && messSize == old(messSize)
    {
      hide IsEmptyId;
      if flagInput || !IsEmptyId(rest[ID_AT..ID_AT + ID_SIZE]) {
        return NotAuthorized;
      }
      r := SetExHeaderWithoutCalc(exhType, exhLen, exhBody);
      if r != Success {
        return r;
      }
      CalcCecMessSize();
      return Success;
    }

    method GetExHeader(exhType: U32) returns (r: Result, exhLen: nat, exhBody: seq<Byte>)
      requires Valid()
      ensures match Lookup(ExHeaders(), exhType)
              case None => r == NoData && exhLen == 0
              case Some(h) => r == Success && exhLen == h.len && exhBody == h.data
    {
      if numOfExHeader == 0 {
        return NoData, 0, [];
      }
      var i := 0;
      while i < numOfExHeader
        invariant 0 <= i <= numOfExHeader && forall j :: 0 <= j < i ==> ExHeaders()[j].exType != exhType
      {
        LookupIsFirst(ExHeaders(), exhType, i);
        if mhex[i].exType == exhType {
          return Success, mhex[i].len, mhex[i].data;
        }
        i := i + 1;
      }
      LookupIsFirst(ExHeaders(), exhType, numOfExHeader);
      return NoData, 0, [];
    }

    /** Sets the body; on success the sizes in the header fit. */
    method SetMessageBody(dataBody: Option<seq<Byte>>, size: nat) returns (r: Result)
      requires Valid() && (dataBody.Some? ==> size <= |dataBody.value|)
      modifies this`messBodyLen, this`messBody, this`bodySize, this`headerSize, this`messSize
      ensures Valid()
      ensures r == if dataBody.None? then InvalidArgument
                   else if size % 4 != 0 then MisalignedSize
                   else if size == 0 || size > MESSAGE_BODY_SIZE_MAX then TooLarge
                   else if !MayChange() then NotAuthorized else Success
      ensures r == Success ==> Sized() && Body() == dataBody.value[..size]
      ensures r != Success ==> messBodyLen == old(messBodyLen) && messBody == old(messBody)
                               && headerSize == old(headerSize) && messSize == old(messSize)
    {
      if dataBody == None {
        return InvalidArgument;
      }
      if size % 4 != 0 {
        return MisalignedSize;
      }
      if size + HEADER_SIZE > CEC_MESSSIZEMAX_DEFAULT || size <= 0 {
        return TooLarge;
      }
      if size > MESSAGE_BODY_SIZE_MAX {
        return TooLarge;
      }
      if flagInput || !IsEmptyId(rest[ID_AT..ID_AT + ID_SIZE]) {
        return NotAuthorized;
      }
      messBodyLen := size;
      messBody := dataBody;
      bodySize := messBodyLen;
      CalcCecMessSize();
      return Success;
    }

    method Perform(c: Call) returns (r: Result)
      requires Valid() && c.Ok() && (MayChange() ==> |c.Headers(ExHeaders())| <= CEC_EXHEADER_NUM_MAX)
      modifies this, mhex
      ensures Valid() && MayChange() == old(MayChange()) && r == c.Answer(MayChange())
      ensures r == Success ==> Sized()
      ensures r != Success && old(Sized()) ==> Sized()
      ensures ExHeaders() == if MayChange() then c.Headers(old(ExHeaders())) else old(ExHeaders())
      ensures Body() == if MayChange() then c.Body(old(Body())) else old(Body())
    {
      match c {
        case SetHeader(exType, len, data) =>
          if c.Answer(true) == Success {
            PutLength(ExHeaders(), ExHeader(exType, len, data.value));
          }
          r := SetExHeader(exType, len, data);
        case SetBody(data, len) =>
          r := SetMessageBody(data, len);
      }
    }

    /**
     Any run of the setters on a message that may be changed: each answer is that of its call alone, the extended
     headers are a map that the calls have updated in order, the body is the last one taken, and from the first call
     that was taken on the sizes in the header fit. A message that may not be changed stays as it is.
     */
    method Run(calls: seq<Call>) returns (answers: seq<Result>)
      requires Valid() && forall k :: 0 <= k < |calls| ==> calls[k].Ok()
      requires MayChange() ==> |HeadersAfter(ExHeaders(), calls)| <= CEC_EXHEADER_NUM_MAX
      modifies this, mhex
      ensures Valid() && |answers| == |calls| && MayChange() == old(MayChange())
      ensures forall k :: 0 <= k < |calls| ==> answers[k] == calls[k].Answer(MayChange())
      ensures old(Sized()) || Success in answers ==> Sized()
      ensures ExHeaders() == if MayChange() then HeadersAfter(old(ExHeaders()), calls) else old(ExHeaders())
      ensures Body() == if MayChange() then BodyAfter(old(Body()), calls) else old(Body())
    {
      hide HeadersAfter, BodyAfter, Unique, AllProper, Message.Sized, Call.Headers, Call.Body, Call.Answer;
      answers := [];
      assert calls[0..] == calls;
      for i := 0 to |calls|
        invariant Valid() && |answers| == i && MayChange() == old(MayChange())
        invariant forall k :: 0 <= k < i ==> answers[k] == calls[k].Answer(MayChange())
        invariant old(Sized()) || Success in answers ==> Sized()
        invariant MayChange() ==> HeadersAfter(ExHeaders(), calls[i..]) == HeadersAfter(old(ExHeaders()), calls)
        invariant MayChange() ==> BodyAfter(Body(), calls[i..]) == BodyAfter(old(Body()), calls)
        invariant !MayChange() ==> ExHeaders() == old(ExHeaders()) && Body() == old(Body())
      {
        FirstCall(ExHeaders(), Body(), calls, i);
        var r := Perform(calls[i]);
        answers := answers + [r];
      }
      NoCalls(ExHeaders(), Body(), calls);
    }

    ghost function HeaderBytes(): seq<Byte>
      reads this, mhex
      requires Valid()
    {
      magic + Write32Le(messSize) + Write32Le(headerSize) + Write32Le(bodySize) + rest
    }

    /** What lies in the buffer: the header, the extended headers, the body, and the hash if there is one. */
    ghost predicate LaidOut(bytes: seq<Byte>)
      reads this, mhex
      requires Valid()
    {
      var hs := ExHeaders();
      var bodyAt := Offset(hs, |hs|);
      && Holds(bytes, 0, HeaderBytes()) && HoldsExHeaders(bytes, hs, |hs|) && Holds(bytes, bodyAt, Body())
      && (hash.Some? ==> Holds(bytes, bodyAt + messBodyLen, hash.value[..HASH_SIZE]))
    }

    /** Writes the extended headers one after the other, behind the header. */
    method WriteExHeaders(messData: array<Byte>) returns (at: nat)
      requires Valid() && Offset(ExHeaders(), numOfExHeader) <= messData.Length
      modifies messData
      ensures at == Offset(ExHeaders(), numOfExHeader) && HEADER_SIZE <= at <= messData.Length
      ensures HoldsExHeaders(messData[..], ExHeaders(), numOfExHeader)
      ensures messData[..HEADER_SIZE] == old(messData[..HEADER_SIZE]) && messData[at..] == old(messData[at..])
    {
      hide HoldsExHeaders, HoldsExHeader, Offset, Unique, AllProper, ExHeadersSize;
      ghost var hs := ExHeaders();
      ghost var start := messData[..];
      at := HEADER_SIZE;
      FirstOffset(hs);
      OffsetsGrow(hs, 0, numOfExHeader);
      NoneHeld(messData[..], hs);
      for i := 0 to numOfExHeader
        invariant at == Offset(hs, i) && HEADER_SIZE <= at <= messData.Length
        invariant HoldsExHeaders(messData[..], hs, i)
        invariant messData[..HEADER_SIZE] == start[..HEADER_SIZE] && messData[at..] == start[at..]
      {
        ghost var before := messData[..];
        OffsetStep(hs, i);
        OffsetsGrow(hs, i + 1, numOfExHeader);
        ProperAt(hs, i);
        at := WriteExHeader(messData, at, mhex[i]);
        AllKept(before, messData[..], hs, i);
        OneMoreHeld(messData[..], hs, i);
      }
    }

    /** Writes the message into a buffer, and nothing behind it. */
    method MakeMessageBinary(messData: array<Byte>) returns (size: U32)
      requires Valid()
      requires Offset(ExHeaders(), numOfExHeader) + messBodyLen + HASH_SIZE <= messData.Length
      modifies messData
      ensures size == messSize && LaidOut(messData[..])
      ensures var end := Offset(ExHeaders(), numOfExHeader) + messBodyLen + (if hash.Some? then HASH_SIZE else 0);
              messData[end..] == old(messData[end..])
    {
      hide HoldsExHeaders, HoldsExHeader, Offset, Unique, AllProper, Holds;
      ghost var hs, start := ExHeaders(), messData[..];
      OffsetsGrow(hs, 0, numOfExHeader);
      FirstOffset(hs);
      Copy(messData, 0, magic + Write32Le(messSize) + Write32Le(headerSize) + Write32Le(bodySize) + rest);
      ghost var first := messData[..];
      var at := WriteExHeaders(messData);
      ghost var written := messData[..];
      HeldKept(first, written, HEADER_SIZE, 0, HeaderBytes());
      SuffixKept(start, written, at, at);
      ghost var end := WriteBodyAndHash(messData, at);
      PrefixKept(written, messData[..], HEADER_SIZE, at);
      HeldKept(written, messData[..], HEADER_SIZE, 0, HeaderBytes());
      AllKept(written, messData[..], hs, numOfExHeader);
      SuffixKept(start, written, at, end);
      return messSize;
    }

    method WriteBodyAndHash(messData: array<Byte>, start: nat) returns (end: nat)
      requires Valid() && start + messBodyLen + HASH_SIZE <= messData.Length
      modifies messData
      ensures end == start + messBodyLen + (if hash.Some? then HASH_SIZE else 0) <= messData.Length
      ensures Holds(messData[..], start, Body())
      ensures hash.Some? ==> Holds(messData[..], start + messBodyLen, hash.value[..HASH_SIZE])
      ensures messData[..start] == old(messData[..start]) && messData[end..] == old(messData[end..])
    {
      hide Unique, AllProper, Holds;
      ghost var before := messData[..];
      end := start;
      if messBody != None {
        Copy(messData, end, messBody.value[..messBodyLen]);
        end := end + messBodyLen;
      } else {
        NothingHeld(messData[..], start);
      }
      ghost var written := messData[..];
      SuffixKept(before, written, end, end);
      if hash != None {
        Copy(messData, end, hash.value[..HASH_SIZE]);
        HeldKept(written, messData[..], end, start, Body());
        PrefixKept(written, messData[..], start, end);
        SuffixKept(before, written, end, end + HASH_SIZE);
        end := end + HASH_SIZE;
      }
    }

    /** A reader that goes by the stored lengths gets every extended header and the body out of the bytes again. */
    lemma ReaderFindsEverything(bytes: seq<Byte>)
      requires Valid() && Sized() && LaidOut(bytes)
      ensures ReadMessage(bytes) == Some((Parts(ExHeaders()), Body()))
      ensures Read32Le(bytes, 4) == messSize == Offset(ExHeaders(), numOfExHeader) + |Body()| + HASH_SIZE
    {
      hide HoldsExHeaders, HoldsExHeader, Offset, Unique, AllProper, Read32Le, Write32Le, ReadExHeaders;
      var hs := ExHeaders();
      HeaderFields(bytes, magic, messSize, headerSize, bodySize, rest);
      FirstOffset(hs);
      OffsetsGrow(hs, 0, numOfExHeader);
      assert hs[0..] == hs;
      ReadsExHeaders(bytes, hs, 0);
    }

    /**
     Setting, writing and reading: what a reader gets out of the bytes is what the calls have set, as long as one of
     them was taken.
     */
    method RunAndWrite(calls: seq<Call>, messData: array<Byte>)
      requires Valid() && MayChange() && (forall k :: 0 <= k < |calls| ==> calls[k].Ok())
      requires exists k :: 0 <= k < |calls| && calls[k].Answer(true) == Success
      requires var hs := HeadersAfter(ExHeaders(), calls);
               |hs| <= CEC_EXHEADER_NUM_MAX
               && Offset(hs, |hs|) + |BodyAfter(Body(), calls)| + HASH_SIZE <= messData.Length
      modifies this, mhex, messData
      ensures Valid() && ExHeaders() == HeadersAfter(old(ExHeaders()), calls)
      ensures ReadMessage(messData[..]) == Some((Parts(ExHeaders()), BodyAfter(old(Body()), calls)))
    {
      hide HeadersAfter, BodyAfter, Unique, AllProper, Message.Sized, Message.LaidOut, Call.Answer, ReadMessage;
      hide Offset, Parts;
      ghost var k :| 0 <= k < |calls| && calls[k].Answer(true) == Success;
      var answers := Run(calls);
      assert answers[k] == Success;
      var size := MakeMessageBinary(messData);
      ReaderFindsEverything(messData[..]);
    }
  }

  method Copy(buffer: array<Byte>, at: nat, block: seq<Byte>)
    requires at + |block| <= buffer.Length
    modifies buffer
    ensures Holds(buffer[..], at, block)
    ensures buffer[..at] == old(buffer[..at]) && buffer[at + |block|..] == old(buffer[at + |block|..])
  {
    for i := 0 to |block|
      invariant buffer[at..at + i] == block[..i]
      invariant buffer[..at] == old(buffer[..at]) && buffer[at + |block|..] == old(buffer[at + |block|..])
    {
      buffer[at + i] := block[i];
    }
  }

  method WriteExHeader(messData: array<Byte>, start: nat, h: ExHeader) returns (at: nat)
    requires Proper(h) && start + ExHeaderSize(h) <= messData.Length
    modifies messData
    ensures at == start + ExHeaderSize(h) && HoldsExHeader(messData[..], start, h)
    ensures messData[..start] == old(messData[..start]) && messData[at..] == old(messData[at..])
  {
    hide Holds, Write32Le, RoundUp4;
    RoundedUp(h.len);
    ghost var before := messData[..];
    Copy(messData, start, Write32Le(h.exType) + Write32Le(h.len));
    ghost var core := messData[..];
    at := start + EXHEADER_CORE_SIZE;
    Copy(messData, at, h.data[..h.len]);
    CoreHeld(core, messData[..], start, h);
    PrefixKept(core, messData[..], start, at);
    SuffixKept(before, core, at, at + RoundUp4(h.len));
    SuffixKept(core, messData[..], at + h.len, at + RoundUp4(h.len));
    at := at + RoundUp4(h.len);
  }

  lemma CoreHeld(before: seq<Byte>, after: seq<Byte>, start: nat, h: ExHeader)
    requires h.len < 0x1_0000_0000 && Holds(before, start, Write32Le(h.exType) + Write32Le(h.len))
    requires |after| == |before| && after[..start + EXHEADER_CORE_SIZE] == before[..start + EXHEADER_CORE_SIZE]
    ensures Holds(after, start, Write32Le(h.exType)) && Holds(after, start + 4, Write32Le(h.len))
  {
    hide Write32Le;
    var block := Write32Le(h.exType) + Write32Le(h.len);
    assert after[start..start + 8] == before[start..start + 8] == block by {
      assert after[start..start + 8] == after[..start + 8][start..];
      assert before[start..start + 8] == before[..start + 8][start..];
    }
    assert after[start..start + 4] == after[start..start + 8][..4];
    assert after[start + 4..start + 8] == after[start..start + 8][4..];
  }

  lemma HeaderFields(bytes: seq<Byte>, magic: seq<Byte>, a: U32, b: U32, c: U32, rest: seq<Byte>)
    requires |magic| == MAGIC_SIZE && |rest| == REST_SIZE
    requires Holds(bytes, 0, magic + Write32Le(a) + Write32Le(b) + Write32Le(c) + rest)
    ensures Read32Le(bytes, 4) == a && Read32Le(bytes, 8) == b && Read32Le(bytes, 12) == c
  {
    hide Write32Le, Read32Le;
    var block := magic + Write32Le(a) + Write32Le(b) + Write32Le(c) + rest;
    assert bytes[0..|block|] == block;
    assert bytes[4..8] == block[4..8] == Write32Le(a);
    assert bytes[8..12] == block[8..12] == Write32Le(b);
    assert bytes[12..16] == block[12..16] == Write32Le(c);
    ReadsWhatIsWritten(bytes, 4, a);
    ReadsWhatIsWritten(bytes, 8, b);
    ReadsWhatIsWritten(bytes, 12, c);
  }

  lemma FirstOffset(hs: seq<ExHeader>)
    ensures Offset(hs, 0) == HEADER_SIZE
  {
  }

  lemma NoneHeld(bytes: seq<Byte>, hs: seq<ExHeader>)
    requires AllProper(hs)
    ensures HoldsExHeaders(bytes, hs, 0)
  {
  }

  lemma OneMoreHeld(bytes: seq<Byte>, hs: seq<ExHeader>, n: nat)
    requires AllProper(hs) && n < |hs| && HoldsExHeaders(bytes, hs, n) && HoldsExHeader(bytes, Offset(hs, n), hs[n])
    ensures HoldsExHeaders(bytes, hs, n + 1)
  {
    hide Offset, HoldsExHeader;
  }

  lemma SuffixKept(before: seq<Byte>, after: seq<Byte>, m: nat, n: nat)
    requires m <= n <= |before| == |after| && before[m..] == after[m..]
    ensures before[n..] == after[n..]
  {
    assert before[n..] == before[m..][n - m..] && after[n..] == after[m..][n - m..];
  }

  lemma NothingHeld(bytes: seq<Byte>, at: nat)
    requires at <= |bytes|
    ensures Holds(bytes, at, [])
  {
  }

  lemma ProperAt(hs: seq<ExHeader>, i: nat)
    requires AllProper(hs) && i < |hs|
    ensures Proper(hs[i])
  {
  }

  lemma PrefixKept(before: seq<Byte>, after: seq<Byte>, m: nat, n: nat)
    requires m <= n <= |before| == |after| && before[..n] == after[..n]
    ensures before[..m] == after[..m]
  {
    assert before[..m] == before[..n][..m] && after[..m] == after[..n][..m];
  }

  lemma HeldKept(before: seq<Byte>, after: seq<Byte>, n: nat, at: nat, block: seq<Byte>)
    requires n <= |before| == |after| && before[..n] == after[..n]
    requires at + |block| <= n && Holds(before, at, block)
    ensures Holds(after, at, block)
  {
    assert before[at..at + |block|] == before[..n][at..at + |block|];
    assert after[at..at + |block|] == after[..n][at..at + |block|];
  }

  /** What is written behind the extended headers leaves them as they are. */
  lemma AllKept(before: seq<Byte>, after: seq<Byte>, hs: seq<ExHeader>, n: nat)
    requires AllProper(hs) && n <= |hs| && HoldsExHeaders(before, hs, n)
    requires Offset(hs, n) <= |before| == |after| && before[..Offset(hs, n)] == after[..Offset(hs, n)]
    ensures HoldsExHeaders(after, hs, n)
  {
    hide Offset, Write32Le;
    forall i | 0 <= i < n
      ensures HoldsExHeader(after, Offset(hs, i), hs[i])
    {
      OffsetStep(hs, i);
      OffsetsGrow(hs, i + 1, n);
      RoundedUp(hs[i].len);
      var at := Offset(hs, i);
      assert HoldsExHeader(before, at, hs[i]);
      HeldKept(before, after, Offset(hs, n), at, Write32Le(hs[i].exType));
      HeldKept(before, after, Offset(hs, n), at + 4, Write32Le(hs[i].len));
      HeldKept(before, after, Offset(hs, n), at + EXHEADER_CORE_SIZE, Contents(hs[i]));
    }
  }

  lemma PutIsProper(hs: seq<ExHeader>, h: ExHeader)
    requires Unique(hs) && AllProper(hs) && Proper(h)
    ensures AllProper(Put(hs, h))
  {
    PutIsMapUpdate(hs, h, 0);
    forall i | 0 <= i < |Put(hs, h)|
      ensures Proper(Put(hs, h)[i])
    {
      assert Put(hs, h)[i] in Put(hs, h);
    }
  }
}
