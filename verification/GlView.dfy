/**
 What runs of the calls of enable.c and fragopstate.c, and vldtr_validateOthers of statevalidator.c, come to: which
 state and which registers, byte by byte, and what they leave alone.
 */
module GlView {
  import opened BlendSpec
  import opened CommandStream
  import opened Wrappers
  import opened Words

  // ---- what the state is after a run ----

  /** How a call leaves a switch that was `was` before. */
  function Switch(c: GlCall, cap: Cap, was: bool): bool {
    if c.Enable? && c.cap == cap then c.on else was
  }

  /** How it leaves the blend factors: a call with factors that do not exist does not count. */
  function Factoring(c: GlCall, was: Factors): Factors {
    if c.BlendFuncSeparate? && ValidFactors(c.factors) then c.factors else was
  }

  /** The same for a run of calls. */
  function LastOn(cs: seq<GlCall>, cap: Cap, was: bool): bool
    decreases |cs|
  {
    if cs == [] then was else LastOn(cs[1..], cap, Switch(cs[0], cap, was))
  }

  function LastFactors(cs: seq<GlCall>, was: Factors): Factors
    decreases |cs|
  {
    if cs == [] then was else LastFactors(cs[1..], Factoring(cs[0], was))
  }

  /** The switches and factors are those that the call sets. */
  predicate CallSets(s: GlState, c: GlCall, t: GlState) {
    && t.logicOp == Switch(c, ColorLogicOp, s.logicOp) && t.blend == Switch(c, Blend, s.blend)
    && t.depthTest == Switch(c, DepthTest, s.depthTest)
    && t.earlyDepthTest == Switch(c, EarlyDepthTest, s.earlyDepthTest)
    && t.stencilTest == Switch(c, StencilTest, s.stencilTest) && t.cull == Switch(c, CullFace, s.cull)
    && t.switches.scissorTest == Switch(c, StateOnly(ScissorTest), s.switches.scissorTest)
    && t.switches.polygonOffset == Switch(c, StateOnly(PolygonOffsetFill), s.switches.polygonOffset)
    && t.switches.accelerate == Switch(c, StateOnly(AccelerateTriangles), s.switches.accelerate)
    && t.switches.depthCopy == Switch(c, StateOnly(DepthStencilCopy), s.switches.depthCopy)
    && t.factors == Factoring(c, s.factors)
  }

  /** The switches and factors are those set last. */
  predicate Sets(s: GlState, cs: seq<GlCall>, t: GlState) {
    && t.logicOp == LastOn(cs, ColorLogicOp, s.logicOp) && t.blend == LastOn(cs, Blend, s.blend)
    && t.depthTest == LastOn(cs, DepthTest, s.depthTest)
    && t.earlyDepthTest == LastOn(cs, EarlyDepthTest, s.earlyDepthTest)
    && t.stencilTest == LastOn(cs, StencilTest, s.stencilTest) && t.cull == LastOn(cs, CullFace, s.cull)
    && t.switches.scissorTest == LastOn(cs, StateOnly(ScissorTest), s.switches.scissorTest)
    && t.switches.polygonOffset == LastOn(cs, StateOnly(PolygonOffsetFill), s.switches.polygonOffset)
    && t.switches.accelerate == LastOn(cs, StateOnly(AccelerateTriangles), s.switches.accelerate)
    && t.switches.depthCopy == LastOn(cs, StateOnly(DepthStencilCopy), s.switches.depthCopy)
    && t.factors == LastFactors(cs, s.factors)
  }

  /** All that no call of these changes, bit by bit. */
  predicate Keeps(s: GlState, t: GlState) {
    && t.cuDepthTest / 2 == s.cuDepthTest / 2 && t.cuStencilTest / 2 == s.cuStencilTest / 2
    && t.cuBlendFunc % 0x1_0000 == s.cuBlendFunc % 0x1_0000
    && t.cullFace == s.cullFace && t.frontFace == s.frontFace && t.block32 == s.block32 && t.forceMode == s.forceMode
    && t.cuStencilOp == s.cuStencilOp && t.cuLogicOp == s.cuLogicOp && t.cuBlendColor == s.cuBlendColor
    && t.cuGasDepth == s.cuGasDepth && t.tiEarlyDepthFunc == s.tiEarlyDepthFunc
    && t.tiClearEarlyDepth == s.tiClearEarlyDepth
  }

  /** Each call does what it is there for, and nothing else. */
  lemma CallMeans(s: GlState, c: GlCall)
    ensures CallSets(s, c, Next(s, c)) && Keeps(s, Next(s, c))
  {
    hide Switched, Reblended, CallSets, Keeps, ValidFactors;
    match c
    case Enable(cap, on) =>
      if Elided(s, c) {
        AlreadySet(s, c);
      } else {
        SwitchMeans(s, cap, on);
        SwitchKeeps(s, cap, on);
      }
    case BlendFuncSeparate(f) =>
      if Elided(s, c) {
        AlreadySet(s, c);
      } else {
        ReblendedMeans(s, f);
      }
  }

  lemma AlreadySet(s: GlState, c: GlCall)
    requires Elided(s, c)
    ensures CallSets(s, c, s) && Keeps(s, s)
  {
    hide ValidFactors;
  }

  lemma SwitchKeeps(s: GlState, cap: Cap, on: bool)
    ensures Keeps(s, Switched(s, cap, on))
  {
    hide SetBit0, StateSwitches.Set;
    match cap
    case ColorLogicOp =>
    case Blend =>
    case DepthTest => BitIsSet(s.cuDepthTest, on);
    case EarlyDepthTest =>
    case StencilTest => BitIsSet(s.cuStencilTest, on);
    case CullFace =>
    case StateOnly(_) =>
    case Invalid =>
  }

  lemma SwitchMeans(s: GlState, cap: Cap, on: bool)
    ensures CallSets(s, GlCall.Enable(cap, on), Switched(s, cap, on))
  {
    hide CallSets, Switched;
    if cap.StateOnly? {
      StateSwitchMeans(s, cap.cap, on);
    } else {
      OtherSwitchMeans(s, cap, on);
    }
  }

  lemma OtherSwitchMeans(s: GlState, cap: Cap, on: bool)
    requires !cap.StateOnly?
    ensures CallSets(s, GlCall.Enable(cap, on), Switched(s, cap, on))
  {
    hide SetBit0, StateSwitches.Set, Keeps;
  }

  lemma StateSwitchMeans(s: GlState, cap: StateCap, on: bool)
    ensures CallSets(s, GlCall.Enable(StateOnly(cap), on), Switched(s, StateOnly(cap), on))
  {
    hide SetBit0, StateSwitches.Set, Keeps;
    SetMeans(s.switches, cap, on);
  }

  lemma SetMeans(s: StateSwitches, cap: StateCap, on: bool)
    ensures var t := s.Set(cap, on);
            && t.scissorTest == (if cap == ScissorTest then on else s.scissorTest)
            && t.polygonOffset == (if cap == PolygonOffsetFill then on else s.polygonOffset)
            && t.accelerate == (if cap == AccelerateTriangles then on else s.accelerate)
            && t.depthCopy == (if cap == DepthStencilCopy then on else s.depthCopy)
  {
  }

  lemma ReblendedMeans(s: GlState, f: Factors)
    ensures CallSets(s, GlCall.BlendFuncSeparate(f), Reblended(s, f)) && Keeps(s, Reblended(s, f))
  {
    hide BlendWord, ValidFactors, FactorsOf;
    if ValidFactors(f) {
      BlendWordReadsBack(s.cuBlendFunc, f);
    }
  }

  /** After any run the switches and factors are those set last, and nothing else has changed. */
  lemma {:induction false} RunSets(s: GlState, cs: seq<GlCall>)
    ensures Sets(s, cs, NextAll(s, cs)) && Keeps(s, NextAll(s, cs))
    decreases |cs|
  {
    hide Next, ValidFactors, Switch, Factoring;
    if cs != [] {
      CallMeans(s, cs[0]);
      RunSets(Next(s, cs[0]), cs[1..]);
    }
  }

  // ---- what is left out, and what is not ----

  /** Calling again with the same arguments writes nothing, unless writing is forced. */
  lemma RepeatWritesNothing(s: GlState, c: GlCall)
    requires !s.forceMode
    ensures Writes(Next(s, c), c) == []
  {
    hide Next, ValidFactors, SwitchWrites;
    CallMeans(s, c);
    if c.Enable? && c.cap.StateOnly? {
      assert c.cap.cap.ScissorTest? || c.cap.cap.PolygonOffsetFill? || c.cap.cap.AccelerateTriangles?
          || c.cap.cap.DepthStencilCopy?;
    }
  }

  /** The registers of one switch show it. */
  predicate ShowsSwitch(t: GlState, cap: Cap, r: RegFile) {
    match cap
    case ColorLogicOp => Get(r, CU_MODE).b1 == if t.logicOp then 0 else 1
    case Blend => !t.logicOp ==> Get(r, CU_BLEND_FUNC) == RegOf(if t.blend then t.cuBlendFunc else BLEND_OFF)
    case DepthTest => Get(r, CU_DEPTH_T).b0 % 2 == if t.depthTest then 1 else 0
    case EarlyDepthTest => Get(r, TI_EARLYZ_MODE).b0 == Get(r, FU_EZ_EN).b0 == if t.earlyDepthTest then 1 else 0
    case StencilTest => Get(r, CU_STENCIL_T).b0 % 2 == if t.stencilTest then 1 else 0
    case CullFace => Get(r, TS_CULLMODE) == RegOf(if t.cull then CullMode(t) else 0)
    case _ => true
  }

  /** When writing is forced, a switch puts its registers right, whatever they were. */
  lemma ForcedSwitchShows(s: GlState, cap: Cap, on: bool, r: RegFile)
    requires s.forceMode
    ensures ShowsSwitch(Switched(s, cap, on), cap, ApplyAll(r, Writes(s, GlCall.Enable(cap, on))))
  {
    hide ApplyAll, SetBit0, SwitchWrites, ShowsSwitch;
    SwitchedBits(s, cap, on);
    SwitchShows(Switched(s, cap, on), cap, r);
  }

  lemma SwitchedBits(s: GlState, cap: Cap, on: bool)
    ensures var t := Switched(s, cap, on);
            && (cap.DepthTest? ==> t.cuDepthTest % 2 == if t.depthTest then 1 else 0)
            && (cap.StencilTest? ==> t.cuStencilTest % 2 == if t.stencilTest then 1 else 0)
  {
    hide SetBit0;
    BitIsSet(s.cuDepthTest, on);
    BitIsSet(s.cuStencilTest, on);
  }

  lemma SwitchShows(t: GlState, cap: Cap, r: RegFile)
    requires cap.DepthTest? ==> t.cuDepthTest % 2 == if t.depthTest then 1 else 0
    requires cap.StencilTest? ==> t.cuStencilTest % 2 == if t.stencilTest then 1 else 0
    ensures ShowsSwitch(t, cap, ApplyAll(r, SwitchWrites(t, cap)))
  {
    hide ApplyAll, RegOf, LogicWrites, EarlyZWrites, CullWrites, CullMode;
    match cap
    case ColorLogicOp => LogicGroup(t, r);
    case Blend => LogicGroup(t, r);
    case DepthTest =>
      DepthGroup(t, r);
      LowBitShown(t.cuDepthTest);
    case EarlyDepthTest => EarlyZGroup(t, r);
    case StencilTest =>
      StencilGroup(t, r, 1);
      LowBitShown(t.cuStencilTest);
    case CullFace => CullGroup(t, r);
    case StateOnly(_) =>
    case Invalid =>
  }

  /** So does a call with factors: both upper bytes of the blend register, for blending on or off. */
  lemma ForcedFactorsShow(s: GlState, f: Factors, r: RegFile)
    requires s.forceMode && ValidFactors(f)
    ensures var q := Get(ApplyAll(r, Writes(s, GlCall.BlendFuncSeparate(f))), CU_BLEND_FUNC);
            var g := if s.blend && !s.logicOp then f else Factors(GL_ONE, GL_ZERO, GL_ONE, GL_ZERO);
            && FactorOf(q.b2 % 16) == Some(g.srcRGB) && FactorOf(q.b2 / 16) == Some(g.dstRGB)
            && FactorOf(q.b3 % 16) == Some(g.srcAlpha) && FactorOf(q.b3 / 16) == Some(g.dstAlpha)
            && q.b0 == Get(r, CU_BLEND_FUNC).b0 && q.b1 == Get(r, CU_BLEND_FUNC).b1
  {
    hide ApplyAll, RegOf, BlendWord, ValidFactors, FactorOf;
    var w := if s.blend && !s.logicOp then BlendWord(s.cuBlendFunc, f) else BLEND_OFF;
    BlendWordReadsBack(s.cuBlendFunc, f);
    BlendOffShown();
    NibblesShown(w);
    Apply1(r, Write(CU_BLEND_FUNC, 0xc, w));
    assert Writes(s, GlCall.BlendFuncSeparate(f)) == [Write(CU_BLEND_FUNC, 0xc, w)];
  }

  // ---- what calls leave alone ----

  /** A write of one of the calls: registers other than the blend and the cull register are written in one byte. */
  predicate OfACall(w: Write) {
    || (w.addr == CU_MODE && w.be == 2)
    || (w.addr in {CU_DEPTH_T, CU_STENCIL_T, TI_EARLYZ_MODE, FU_EZ_EN} && w.be == 1)
    || w.addr in {CU_BLEND_FUNC, TS_CULLMODE}
  }

  /** All other registers, and the other bytes of these, are the same. */
  ghost predicate LeavesOthers(r: RegFile, q: RegFile) {
    && (forall addr :: addr !in {CU_MODE, CU_BLEND_FUNC, CU_DEPTH_T, CU_STENCIL_T, TI_EARLYZ_MODE, FU_EZ_EN,
                                 TS_CULLMODE}
                       ==> Get(q, addr) == Get(r, addr))
    && Get(q, CU_MODE) == Get(r, CU_MODE).(b1 := Get(q, CU_MODE).b1)
    && (forall addr :: addr in {CU_DEPTH_T, CU_STENCIL_T, TI_EARLYZ_MODE, FU_EZ_EN}
                       ==> Get(q, addr) == Get(r, addr).(b0 := Get(q, addr).b0))
  }

  lemma {:induction false} CallsLeave(r: RegFile, ws: seq<Write>)
    requires forall k :: 0 <= k < |ws| ==> OfACall(ws[k])
    ensures LeavesOthers(r, ApplyAll(r, ws))
    decreases |ws|
  {
    if ws != [] {
      OneLeaves(r, ws[0]);
      CallsLeave(Apply(r, ws[0]), ws[1..]);
    }
  }

  lemma OneLeaves(r: RegFile, w: Write)
    requires OfACall(w)
    ensures LeavesOthers(r, Apply(r, w))
  {
    hide RegOf;
  }

  /** Whatever the calls, they leave all other registers, and the other bytes of those they write, as they were. */
  lemma {:induction false} RunLeaves(s: GlState, cs: seq<GlCall>)
    ensures forall k :: 0 <= k < |AllWrites(s, cs)| ==> OfACall(AllWrites(s, cs)[k])
    decreases |cs|
  {
    hide Next, Writes, OfACall;
    if cs != [] {
      WritesOfACall(s, cs[0]);
      RunLeaves(Next(s, cs[0]), cs[1..]);
    }
  }

  lemma WritesOfACall(s: GlState, c: GlCall)
    ensures forall k :: 0 <= k < |Writes(s, c)| ==> OfACall(Writes(s, c)[k])
  {
    hide Next, ValidFactors;
  }

  // ---- what the validator writes ----

  /** What vldtr_validateOthers makes of each register: the bytes that come from the state, and those that stay. */
  ghost predicate Validated(s: GlState, v: Viewport, r: RegFile, q: RegFile) {
    ValidatedTests(s, r, q) && ValidatedModes(s, r, q) && ValidatedViewport(v, r, q)
  }

  predicate ValidatedTests(s: GlState, r: RegFile, q: RegFile) {
    var bit := if s.earlyDepthTest then 1 else 0;
    && Get(q, CU_DEPTH_T) == Get(r, CU_DEPTH_T).(b0 := RegOf(s.cuDepthTest).b0, b1 := RegOf(s.cuDepthTest).b1)
    && Get(q, GAS_DELTAZ_DEPTH) == Get(r, GAS_DELTAZ_DEPTH).(b3 := RegOf(s.cuGasDepth).b3)
    && Get(q, TI_EARLYZ_MODE) == Get(r, TI_EARLYZ_MODE).(b0 := bit) && Get(q, FU_EZ_EN) == Get(r, FU_EZ_EN).(b0 := bit)
    && Get(q, TI_ZCOMP_MODE) == Get(r, TI_ZCOMP_MODE).(b0 := RegOf(s.tiEarlyDepthFunc).b0)
    && Get(q, EZ_Z_CLEAR_VALUE) == RegOf(s.tiClearEarlyDepth).(b3 := Get(r, EZ_Z_CLEAR_VALUE).b3)
    && Get(q, CU_STENCIL_T) == RegOf(s.cuStencilTest) && Get(q, CU_STENCIL_OP) == RegOf(s.cuStencilOp)
  }

  predicate ValidatedModes(s: GlState, r: RegFile, q: RegFile) {
    && Get(q, CU_LOGIC) == RegOf(s.cuLogicOp) && Get(q, CU_CONST_RGBA) == RegOf(s.cuBlendColor)
    && Get(q, CU_MODE) == Get(r, CU_MODE).(b1 := if s.logicOp then 0 else 1)
    && Get(q, CU_BLEND_FUNC) == (if s.logicOp then Get(r, CU_BLEND_FUNC) else RegOf(BlendReg(s)))
    && Get(q, TS_CULLMODE) == RegOf(if s.cull then CullMode(s) else 0)
    && Get(q, FU_MEM_ADRS_MODE) == Get(r, FU_MEM_ADRS_MODE).(b0 := if s.block32 then 1 else 0)
  }

  ghost predicate ValidatedViewport(v: Viewport, r: RegFile, q: RegFile) {
    && Get(q, TS_WIDTH2) == RegOf(v.width2) && Get(q, TS_HEIGHT2) == RegOf(v.height2)
    && Get(q, TI_OFFSET) == RegOf(v.offset)
    && Get(q, TS_RWIDTH2) == (if v.sizes.Some? then RegOf(v.sizes.value.0) else Get(r, TS_RWIDTH2))
    && Get(q, TS_RHEIGHT2) == (if v.sizes.Some? then RegOf(v.sizes.value.1) else Get(r, TS_RHEIGHT2))
    && forall addr :: addr !in VALIDATED ==> Get(q, addr) == Get(r, addr)
  }

  const TS_RHEIGHT2 := 0x44

  const VALIDATED := {CU_DEPTH_T, GAS_DELTAZ_DEPTH, TI_EARLYZ_MODE, FU_EZ_EN, TI_ZCOMP_MODE, EZ_Z_CLEAR_VALUE,
                      CU_STENCIL_T, CU_STENCIL_OP, CU_LOGIC, CU_CONST_RGBA, CU_MODE, CU_BLEND_FUNC, TS_CULLMODE,
                      FU_MEM_ADRS_MODE, TS_WIDTH2, TS_HEIGHT2, TI_OFFSET, TS_RWIDTH2, TS_RHEIGHT2}

  /** A write in the middle of others that leave its register alone. */
  lemma WrittenOnce(r: RegFile, before: seq<Write>, w: Write, after: seq<Write>)
    requires w.be > 0
    requires forall k :: 0 <= k < |before| ==> before[k].addr != w.addr
    requires forall k :: 0 <= k < |after| ==> after[k].addr != w.addr
    ensures Get(ApplyAll(r, before + [w] + after), w.addr) == Merge(Get(r, w.addr), w.be, RegOf(w.data))
  {
    hide ApplyAll, RegOf, Merge;
    LastGroup(r, before, [w], after, w.addr);
    Untouched(r, before, w.addr);
    Apply1(ApplyAll(r, before), w);
  }

  /** The place of a write among others, each of which goes to a register of its own. */
  predicate Distinct(ws: seq<Write>) {
    forall i, j :: 0 <= i < j < |ws| ==> ws[i].addr != ws[j].addr
  }

  lemma Written(r: RegFile, ws: seq<Write>, w: Write)
    requires Distinct(ws) && w in ws && w.be > 0
    ensures Get(ApplyAll(r, ws), w.addr) == Merge(Get(r, w.addr), w.be, RegOf(w.data))
  {
    hide ApplyAll, RegOf, Merge;
    var i :| 0 <= i < |ws| && ws[i] == w;
    assert ws == ws[..i] + [w] + ws[i + 1..];
    WrittenOnce(r, ws[..i], w, ws[i + 1..]);
  }

  lemma DistinctAppend(a: seq<Write>, b: seq<Write>)
    requires Distinct(a) && Distinct(b) && forall w, u :: w in a && u in b ==> w.addr != u.addr
    ensures Distinct(a + b)
  {
    var ws := a + b;
    forall i, j | 0 <= i < j < |ws|
      ensures ws[i].addr != ws[j].addr
    {
      if i < |a| <= j {
        assert ws[i] in a && ws[j] in b;
      }
    }
  }

  lemma DistinctFront(s: GlState, v: Viewport)
    ensures var ws := ViewportWrites(v) + DepthWrites(s) + EarlyZWrites(s);
            && Distinct(ws)
            && forall w :: w in ws ==> w.addr in {TS_WIDTH2, TS_RWIDTH2, TS_HEIGHT2, TS_RHEIGHT2, TI_OFFSET,
                                                  CU_DEPTH_T, GAS_DELTAZ_DEPTH, TI_EARLYZ_MODE, FU_EZ_EN}
  {
  }

  lemma DistinctBack(s: GlState)
    ensures var ws := ModeWrites(s) + LogicWrites(s) + CullWrites(s) + StencilWrites(s);
            && Distinct(ws)
            && forall w :: w in ws ==> w.addr in {TI_ZCOMP_MODE, EZ_Z_CLEAR_VALUE, CU_LOGIC, CU_MODE, CU_BLEND_FUNC,
                                                  TS_CULLMODE, FU_MEM_ADRS_MODE, CU_STENCIL_T, CU_STENCIL_OP,
                                                  CU_CONST_RGBA}
  {
  }

  lemma DistinctWrites(s: GlState, v: Viewport)
    ensures Distinct(ValidateWrites(s, v))
  {
    hide Distinct, ViewportWrites, DepthWrites, EarlyZWrites, ModeWrites, LogicWrites, CullWrites, StencilWrites;
    DistinctFront(s, v);
    DistinctBack(s);
    var front := ViewportWrites(v) + DepthWrites(s) + EarlyZWrites(s);
    var back := ModeWrites(s) + LogicWrites(s) + CullWrites(s) + StencilWrites(s);
    DistinctAppend(front, back);
    assert ValidateWrites(s, v) == front + back;
  }

  lemma WritesIn(s: GlState, v: Viewport)
    ensures var ws := ValidateWrites(s, v);
            && (forall w :: w in ViewportWrites(v) ==> w in ws) && (forall w :: w in DepthWrites(s) ==> w in ws)
            && (forall w :: w in EarlyZWrites(s) ==> w in ws) && (forall w :: w in ModeWrites(s) ==> w in ws)
            && (forall w :: w in LogicWrites(s) ==> w in ws) && (forall w :: w in CullWrites(s) ==> w in ws)
            && (forall w :: w in StencilWrites(s) ==> w in ws)
            && (forall w :: w in ws ==> w.addr in VALIDATED)
  {
  }

  lemma TestsValidated(s: GlState, v: Viewport, r: RegFile)
    ensures ValidatedTests(s, r, ApplyAll(r, ValidateWrites(s, v)))
  {
    hide ApplyAll, ValidateWrites, RegOf, ViewportWrites, LogicWrites, CullWrites, Distinct;
    var ws := ValidateWrites(s, v);
    DistinctWrites(s, v);
    WritesIn(s, v);
    Written(r, ws, DepthWrites(s)[0]);
    Written(r, ws, DepthWrites(s)[1]);
    Written(r, ws, EarlyZWrites(s)[0]);
    Written(r, ws, EarlyZWrites(s)[1]);
    Written(r, ws, ModeWrites(s)[0]);
    Written(r, ws, ModeWrites(s)[1]);
    Written(r, ws, StencilWrites(s)[1]);
    Written(r, ws, StencilWrites(s)[2]);
    SmallWords();
  }

  lemma ModesValidated(s: GlState, v: Viewport, r: RegFile)
    ensures ValidatedModes(s, r, ApplyAll(r, ValidateWrites(s, v)))
  {
    hide ApplyAll, ValidateWrites, RegOf, ViewportWrites, DepthWrites, EarlyZWrites, Distinct;
    var ws := ValidateWrites(s, v);
    DistinctWrites(s, v);
    WritesIn(s, v);
    Written(r, ws, ModeWrites(s)[2]);
    Written(r, ws, StencilWrites(s)[3]);
    Written(r, ws, LogicWrites(s)[0]);
    if s.logicOp {
      NoBlending(s, v);
      Untouched(r, ws, CU_BLEND_FUNC);
    } else {
      Written(r, ws, LogicWrites(s)[1]);
    }
    Written(r, ws, CullWrites(s)[0]);
    Written(r, ws, StencilWrites(s)[0]);
    SmallWords();
  }

  lemma NoBlending(s: GlState, v: Viewport)
    requires s.logicOp
    ensures forall w :: w in ValidateWrites(s, v) ==> w.addr != CU_BLEND_FUNC
  {
  }

  lemma SmallWords()
    ensures RegOf(0) == Reg(0, 0, 0, 0) && RegOf(1) == Reg(1, 0, 0, 0) && RegOf(0x100) == Reg(0, 1, 0, 0)
  {
  }

  lemma ViewportValidated(s: GlState, v: Viewport, r: RegFile)
    ensures ValidatedViewport(v, r, ApplyAll(r, ValidateWrites(s, v)))
  {
    hide ApplyAll, ValidateWrites, RegOf, DepthWrites, EarlyZWrites, ModeWrites, LogicWrites, CullWrites;
    hide StencilWrites, Distinct;
    var ws := ValidateWrites(s, v);
    DistinctWrites(s, v);
    WritesIn(s, v);
    Written(r, ws, ViewportWrites(v)[0]);
    Written(r, ws, ViewportWrites(v)[1]);
    if v.sizes.Some? {
      Written(r, ws, ViewportWrites(v)[2]);
      Written(r, ws, ViewportWrites(v)[3]);
    } else {
      NoSizes(s, v);
      Untouched(r, ws, TS_RWIDTH2);
      Untouched(r, ws, TS_RHEIGHT2);
    }
    Written(r, ws, ViewportWrites(v)[|ViewportWrites(v)| - 1]);
    forall addr | addr !in VALIDATED
      ensures Get(ApplyAll(r, ws), addr) == Get(r, addr)
    {
      Untouched(r, ws, addr);
    }
  }

  lemma NoSizes(s: GlState, v: Viewport)
    requires v.sizes.None?
    ensures forall w :: w in ValidateWrites(s, v) ==> w.addr != TS_RWIDTH2 && w.addr != TS_RHEIGHT2
  {
  }

  /** vldtr_validateOthers puts every word into its register, and leaves everything else alone. */
  lemma ValidatorMeans(s: GlState, v: Viewport, r: RegFile)
    ensures Validated(s, v, r, ApplyAll(r, ValidateWrites(s, v)))
  {
    hide ApplyAll, ValidateWrites, ValidatedTests, ValidatedModes, ValidatedViewport;
    TestsValidated(s, v, r);
    ModesValidated(s, v, r);
    ViewportValidated(s, v, r);
  }

  /**
   The validator and then any run of calls: the state has what was set last and is otherwise the same, and the registers
   are those of the validator but for what the calls write, which shows the state.
   */
  lemma RunMeans(s: GlState, v: Viewport, cs: seq<GlCall>, r: RegFile)
    requires Consistent(s)
    ensures var t, start := NextAll(s, cs), ApplyAll(r, ValidateWrites(s, v));
            var q := ApplyAll(r, ValidateWrites(s, v) + AllWrites(s, cs));
            Sets(s, cs, t) && Keeps(s, t) && Shows(t, q) && Validated(s, v, r, start) && LeavesOthers(start, q)
  {
    hide ApplyAll, ValidateWrites, AllWrites, NextAll, Sets, Keeps, Shows, Validated, LeavesOthers, OfACall, Consistent;
    hide Coherent, SameView;
    RunSets(s, cs);
    ElidedRefinesEager(s, v, cs, r);
    ValidatorMeans(s, v, r);
    RunLeaves(s, cs);
    CallsLeave(ApplyAll(r, ValidateWrites(s, v)), AllWrites(s, cs));
    ApplyAppend(r, ValidateWrites(s, v), AllWrites(s, cs));
  }

  /** The same for a buffer that has meant `m` before. */
  lemma BufferMeans(m: seq<Write>, s: GlState, v: Viewport, cs: seq<GlCall>, r: RegFile)
    requires Consistent(s)
    ensures var ws, t, before := ValidateWrites(s, v), NextAll(s, cs), ApplyAll(r, m);
            var q, start := ApplyAll(r, m + ws + AllWrites(s, cs)), ApplyAll(before, ws);
            && Coherent(t, q) && Shows(t, q) && SameView(t, q, ApplyAll(r, m + ws + AllEagerWrites(s, cs)))
            && Validated(s, v, before, start) && LeavesOthers(start, q)
  {
    hide ApplyAll, ValidateWrites, AllWrites, AllEagerWrites, NextAll, Sets, Keeps, Shows, Validated, LeavesOthers;
    hide Consistent, Coherent, SameView, Writes, EagerWrites;
    var ws := ValidateWrites(s, v);
    RunMeans(s, v, cs, ApplyAll(r, m));
    ElidedRefinesEager(s, v, cs, ApplyAll(r, m));
    ApplyAppend(r, m, ws + AllWrites(s, cs));
    ApplyAppend(r, m, ws + AllEagerWrites(s, cs));
    assert m + ws + AllWrites(s, cs) == m + (ws + AllWrites(s, cs));
    assert m + ws + AllEagerWrites(s, cs) == m + (ws + AllEagerWrites(s, cs));
  }
}
