/** The glyph of a character, looked up in the maps of a font through a cache of one entry (font_ResFontBase.cpp). */
module Glyphs {
  type CharCode = c: int | 0 <= c < 0x1_0000

  type GlyphIndex = i: int | 0 <= i < 0x1_0000

  const GLYPH_INDEX_NOT_FOUND: GlyphIndex := 0

  datatype ScanEntry = ScanEntry(ccode: CharCode, index: GlyphIndex)

  datatype MapInfo =
    | Direct(offset: GlyphIndex)
    | Table(indices: seq<GlyphIndex>)
    | Scan(entries: seq<ScanEntry>)
    | Unknown

  /** A map of the codes from `ccodeBegin` to `ccodeEnd`. */
  datatype FontCodeMap = FontCodeMap(ccodeBegin: CharCode, ccodeEnd: CharCode, info: MapInfo)

  predicate Covers(m: FontCodeMap, c: CharCode) {
    m.ccodeBegin <= c <= m.ccodeEnd
  }

  predicate Ascending(entries: seq<ScanEntry>) {
    forall i, j :: 0 <= i < j < |entries| ==> entries[i].ccode < entries[j].ccode
  }

  /** A table has an index for each of its codes, and the entries to be searched are in order. */
  predicate WellFormed(m: FontCodeMap) {
    && (m.info.Table? ==> m.ccodeEnd - m.ccodeBegin < |m.info.indices|)
    && (m.info.Scan? ==> Ascending(m.info.entries))
  }

  // ---- which glyph a character has ----

  /** The index that is entered for a code, looked for from the front. */
  function Entered(entries: seq<ScanEntry>, c: CharCode): GlyphIndex {
    if entries == [] then GLYPH_INDEX_NOT_FOUND
    else if entries[0].ccode == c then entries[0].index
    else Entered(entries[1..], c)
  }

  function GlyphInMap(m: FontCodeMap, c: CharCode): GlyphIndex
    requires WellFormed(m) && Covers(m, c)
  {
    match m.info
    case Direct(offset) => (c - m.ccodeBegin + offset) % 0x1_0000
    case Table(indices) => indices[c - m.ccodeBegin]
    case Scan(entries) => Entered(entries, c)
    case Unknown => GLYPH_INDEX_NOT_FOUND
  }

  ghost predicate AllWellFormed(maps: seq<FontCodeMap>) {
    forall i :: 0 <= i < |maps| ==> WellFormed(maps[i])
  }

  /** The glyph in the first of the maps that covers the code. */
  ghost function GlyphOf(maps: seq<FontCodeMap>, c: CharCode): GlyphIndex
    requires AllWellFormed(maps)
  {
    if maps == [] then GLYPH_INDEX_NOT_FOUND
    else if Covers(maps[0], c) then GlyphInMap(maps[0], c)
    else GlyphOf(maps[1..], c)
  }

  lemma {:induction false} EnteredAt(entries: seq<ScanEntry>, c: CharCode, i: nat)
    requires Ascending(entries) && i < |entries| && entries[i].ccode == c
    ensures Entered(entries, c) == entries[i].index
  {
    if i > 0 {
      assert entries[0].ccode < entries[i].ccode;
      EnteredAt(entries[1..], c, i - 1);
    }
  }

  lemma {:induction false} NotEntered(entries: seq<ScanEntry>, c: CharCode)
    requires forall i :: 0 <= i < |entries| ==> entries[i].ccode != c
    ensures Entered(entries, c) == GLYPH_INDEX_NOT_FOUND
  {
    if entries != [] {
      NotEntered(entries[1..], c);
    }
  }

  /** No map before covers the code. */
  predicate FirstCovering(maps: seq<FontCodeMap>, i: int, c: CharCode) {
    0 <= i < |maps| && Covers(maps[i], c) && forall j :: 0 <= j < i ==> !Covers(maps[j], c)
  }

  /** What a glyph has to do with its code: the distance from the first of both, or the place in a table or a list. */
  predicate MapsTo(m: FontCodeMap, c: CharCode, index: GlyphIndex)
    requires WellFormed(m) && Covers(m, c)
  {
    match m.info
    case Direct(offset) => (index - offset) % 0x1_0000 == c - m.ccodeBegin
    case Table(indices) => index == indices[c - m.ccodeBegin]
    case Scan(entries) =>
      if forall i :: 0 <= i < |entries| ==> entries[i].ccode != c then index == GLYPH_INDEX_NOT_FOUND
      else forall i :: 0 <= i < |entries| && entries[i].ccode == c ==> index == entries[i].index
    case Unknown => index == GLYPH_INDEX_NOT_FOUND
  }

  lemma GlyphInMapMeans(m: FontCodeMap, c: CharCode)
    requires WellFormed(m) && Covers(m, c)
    ensures MapsTo(m, c, GlyphInMap(m, c))
  {
    if m.info.Scan? {
      var entries := m.info.entries;
      forall i | 0 <= i < |entries| && entries[i].ccode == c
        ensures Entered(entries, c) == entries[i].index
      {
        EnteredAt(entries, c, i);
      }
      if forall i :: 0 <= i < |entries| ==> entries[i].ccode != c {
        NotEntered(entries, c);
      }
    }
  }

  /** The first map that covers a code says what its glyph is; without one there is none. */
  lemma {:induction false} GlyphMeans(maps: seq<FontCodeMap>, c: CharCode)
    requires AllWellFormed(maps)
    ensures forall i :: FirstCovering(maps, i, c) ==> MapsTo(maps[i], c, GlyphOf(maps, c))
    ensures (forall i :: 0 <= i < |maps| ==> !Covers(maps[i], c)) ==> GlyphOf(maps, c) == GLYPH_INDEX_NOT_FOUND
  {
    hide MapsTo, GlyphInMap;
    if maps != [] && Covers(maps[0], c) {
      GlyphInMapMeans(maps[0], c);
    } else if maps != [] {
      GlyphMeans(maps[1..], c);
      forall i | FirstCovering(maps, i, c)
        ensures MapsTo(maps[i], c, GlyphOf(maps, c))
      {
        assert maps[i] == maps[1..][i - 1] && FirstCovering(maps[1..], i - 1, c);
      }
    }
  }

  /** Over the codes of a direct map the glyphs count up from the first; over those of a table they are the table's. */
  lemma CountsUp(m: FontCodeMap, c: CharCode, index: GlyphIndex, next: GlyphIndex)
    requires m.info.Direct? && Covers(m, c) && MapsTo(m, c, index)
    ensures c == m.ccodeBegin ==> index == m.info.offset
    ensures c < m.ccodeEnd && MapsTo(m, c + 1, next) ==> next == (index + 1) % 0x1_0000
  {
  }

  /** The search by halves finds what the search from the front finds. */
  method ScanForIndex(entries: seq<ScanEntry>, c: CharCode) returns (index: GlyphIndex)
    requires Ascending(entries)
    ensures index == Entered(entries, c)
  {
    index := GLYPH_INDEX_NOT_FOUND;
    var first, last := 0, |entries| - 1;
    while first <= last
      invariant 0 <= first <= last + 1 <= |entries|
      invariant forall i :: 0 <= i < first ==> entries[i].ccode < c
      invariant forall i :: last < i < |entries| ==> c < entries[i].ccode
    {
      var mid := first + (last - first) / 2;
      if entries[mid].ccode < c {
        first := mid + 1;
      } else if c < entries[mid].ccode {
        last := mid - 1;
      } else {
        EnteredAt(entries, c, mid);
        return entries[mid].index;
      }
    }
    NotEntered(entries, c);
  }

  method FindInMap(m: FontCodeMap, c: CharCode) returns (index: GlyphIndex)
    requires WellFormed(m) && Covers(m, c)
    ensures index == GlyphInMap(m, c)
  {
    index := GLYPH_INDEX_NOT_FOUND;
    match m.info {
      case Direct(offset) =>
        index := (c - m.ccodeBegin + offset) % 0x1_0000;
      case Table(indices) =>
        var tableIndex := c - m.ccodeBegin;
        index := indices[tableIndex];
      case Scan(entries) =>
        index := ScanForIndex(entries, c);
      case Unknown =>
    }
  }

  lemma AllMapped(m: FontCodeMap, indices: seq<GlyphIndex>)
    requires WellFormed(m) && m.ccodeBegin <= m.ccodeEnd && |indices| == m.ccodeEnd - m.ccodeBegin + 1
    requires forall j :: 0 <= j < |indices| ==> MapsTo(m, m.ccodeBegin + j, indices[j])
    ensures m.info.Direct? ==> indices[0] == m.info.offset
                               && forall k :: 0 < k < |indices| ==> indices[k] == (indices[k - 1] as int + 1) % 0x1_0000
    ensures m.info.Table? ==> indices == m.info.indices[..|indices|]
    ensures m.info.Scan? ==>
              forall e :: e in m.info.entries && Covers(m, e.ccode) ==> indices[e.ccode - m.ccodeBegin] == e.index
  {
    if m.info.Direct? {
      assert MapsTo(m, m.ccodeBegin + 0, indices[0]);
      CountsUp(m, m.ccodeBegin, indices[0], 0);
      forall k | 0 < k < |indices|
        ensures indices[k] == (indices[k - 1] as int + 1) % 0x1_0000
      {
        assert MapsTo(m, m.ccodeBegin + (k - 1), indices[k - 1]);
        CountsUp(m, m.ccodeBegin + (k - 1), indices[k - 1], indices[k]);
      }
    } else if m.info.Scan? {
      forall e | e in m.info.entries && Covers(m, e.ccode)
        ensures indices[e.ccode - m.ccodeBegin] == e.index
      {
        var k := e.ccode - m.ccodeBegin;
        assert MapsTo(m, m.ccodeBegin + k, indices[k]);
        var i :| 0 <= i < |m.info.entries| && m.info.entries[i] == e;
      }
    }
  }

  class ResFontBase {
    var maps: seq<FontCodeMap>
    var alterCharIndex: GlyphIndex
    var lastCharCode: CharCode
    var lastGlyphIndex: GlyphIndex

    constructor ()
      ensures maps == [] && lastCharCode == 0 && lastGlyphIndex == GLYPH_INDEX_NOT_FOUND && Consistent()
    {
      maps, alterCharIndex, lastCharCode, lastGlyphIndex := [], 0, 0, GLYPH_INDEX_NOT_FOUND;
    }

    /** The cache holds the glyph of the code it was filled for. */
    ghost predicate Consistent()
      reads this
    {
      AllWellFormed(maps) && lastGlyphIndex == GlyphOf(maps, lastCharCode)
    }

    /** Exchanges the maps; the cache stays, and is right for them only if the glyph of its code is the same. */
    method SetResourceBuffer(maps: seq<FontCodeMap>, alterCharIndex: GlyphIndex)
      requires AllWellFormed(maps)
      modifies this
      ensures this.maps == maps && this.alterCharIndex == alterCharIndex
      ensures lastCharCode == old(lastCharCode) && lastGlyphIndex == old(lastGlyphIndex)
      ensures Consistent() <==> GlyphOf(maps, old(lastCharCode)) == old(lastGlyphIndex)
    {
      this.maps := maps;
      this.alterCharIndex := alterCharIndex;
    }

    /** The answer is right for all codes but, with a cache that is not consistent, the one that is cached. */
    method FindGlyphIndex(c: CharCode) returns (index: GlyphIndex)
      requires AllWellFormed(maps)
      modifies this`lastCharCode, this`lastGlyphIndex
      ensures index == if c == old(lastCharCode) then old(lastGlyphIndex) else GlyphOf(maps, c)
      ensures lastCharCode == c && lastGlyphIndex == index
      ensures old(Consistent()) || c != old(lastCharCode) ==>
        && Consistent() && index == GlyphOf(maps, c)
        && (forall i :: FirstCovering(maps, i, c) ==> MapsTo(maps[i], c, index))
        && ((forall i :: 0 <= i < |maps| ==> !Covers(maps[i], c)) ==> index == GLYPH_INDEX_NOT_FOUND)
    {
      hide MapsTo, FirstCovering;
      GlyphMeans(maps, c);
      if c == lastCharCode {
        return lastGlyphIndex;
      }
      lastCharCode := c;
      var i := 0;
      assert maps[0..] == maps;
      while i < |maps|
        invariant 0 <= i <= |maps| && AllWellFormed(maps[i..]) && GlyphOf(maps[i..], c) == GlyphOf(maps, c)
        invariant lastCharCode == c
      {
        if maps[i].ccodeBegin <= c && c <= maps[i].ccodeEnd {
          lastGlyphIndex := FindInMap(maps[i], c);
          return lastGlyphIndex;
        }
        assert maps[i..][1..] == maps[i + 1..];
        i := i + 1;
      }
      lastGlyphIndex := GLYPH_INDEX_NOT_FOUND;
      return lastGlyphIndex;
    }

    method GetGlyphIndex(c: CharCode) returns (index: GlyphIndex)
      requires Consistent()
      modifies this`lastCharCode, this`lastGlyphIndex
      ensures Consistent()
      ensures index == if GlyphOf(maps, c) == GLYPH_INDEX_NOT_FOUND then alterCharIndex else GlyphOf(maps, c)
    {
      index := FindGlyphIndex(c);
      if index == GLYPH_INDEX_NOT_FOUND {
        index := alterCharIndex;
      }
    }

    /** A run of lookups: with a consistent cache every answer is that of a search without one. */
    method FindAll(codes: seq<CharCode>) returns (indices: seq<GlyphIndex>)
      requires Consistent()
      modifies this`lastCharCode, this`lastGlyphIndex
      ensures Consistent() && |indices| == |codes|
      ensures forall i :: 0 <= i < |codes| ==> indices[i] == GlyphOf(maps, codes[i])
    {
      indices := [];
      for i := 0 to |codes|
        invariant Consistent() && |indices| == i
        invariant forall j :: 0 <= j < i ==> indices[j] == GlyphOf(maps, codes[j])
      {
        var index := FindGlyphIndex(codes[i]);
        indices := indices + [index];
      }
    }

    /**
     All codes of a map that no map before it covers: over a direct map the glyphs count up from its offset, a table
     gives them in its order, and a list gives those of its entries.
     */
    method FindMap(i: nat) returns (indices: seq<GlyphIndex>)
      requires Consistent() && i < |maps| && maps[i].ccodeBegin <= maps[i].ccodeEnd
      requires forall c: CharCode :: Covers(maps[i], c) ==> FirstCovering(maps, i, c)
      modifies this`lastCharCode, this`lastGlyphIndex
      ensures Consistent()
      ensures var m, n := maps[i], maps[i].ccodeEnd - maps[i].ccodeBegin;
              && |indices| == n + 1
              && (m.info.Direct? ==> indices[0] == m.info.offset
                                     && forall k :: 0 < k <= n ==> indices[k] == (indices[k - 1] as int + 1) % 0x1_0000)
              && (m.info.Table? ==> indices == m.info.indices[..n + 1])
              && (m.info.Scan? ==> forall e :: e in m.info.entries && Covers(m, e.ccode) ==>
                                     indices[e.ccode - m.ccodeBegin] == e.index)
    {
      hide FirstCovering, MapsTo;
      var m := maps[i];
      indices := [];
      var n := m.ccodeEnd - m.ccodeBegin;
      for k := 0 to n + 1
        invariant Consistent() && |indices| == k
        invariant forall j :: 0 <= j < k ==> MapsTo(m, m.ccodeBegin + j, indices[j])
      {
        var index := FindGlyphIndex(m.ccodeBegin + k);
        indices := indices + [index];
      }
      AllMapped(m, indices);
    }

    /** After the maps are exchanged the first lookups can be wrong: exactly those of the code in the cache. */
    method ExchangeAndFind(maps: seq<FontCodeMap>, c: CharCode) returns (index: GlyphIndex)
      requires AllWellFormed(maps)
      modifies this
      ensures index == GlyphOf(maps, c) <==> c != old(lastCharCode) || GlyphOf(maps, c) == old(lastGlyphIndex)
    {
      SetResourceBuffer(maps, alterCharIndex);
      index := FindGlyphIndex(c);
    }
  }

  /** A fresh cache says that code 0 has no glyph: a font that has one for it is answered wrongly the first time. */
  method AskFreshFontForZero(maps: seq<FontCodeMap>) returns (index: GlyphIndex)
    requires AllWellFormed(maps)
    ensures index == GlyphOf(maps, 0) <==> GlyphOf(maps, 0) == GLYPH_INDEX_NOT_FOUND
  {
    var font := new ResFontBase();
    index := font.ExchangeAndFind(maps, 0);
  }

  /** Such a font: one map, from code 0 to glyph 1. */
  method FreshFontIsWrong() returns (index: GlyphIndex)
    ensures var maps := [FontCodeMap(0, 0, Direct(1))];
            AllWellFormed(maps) && GlyphOf(maps, 0) == 1 && index != GlyphOf(maps, 0)
  {
    var maps := [FontCodeMap(0, 0, Direct(1))];
    assert GlyphOf(maps, 0) == 1;
    index := AskFreshFontForZero(maps);
  }
}
