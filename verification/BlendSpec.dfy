/**
 The GL state behind enable.c, fragopstate.c and vldtr_validateOthers of statevalidator.c, the register writes these
 leave out or put off, and a driver that leaves out nothing.
 */
module BlendSpec {
  import opened CommandStream
  import opened Wrappers
  import opened Words

  // Registers of picaregmap.h.
  const TS_CULLMODE := 0x40
  const TS_WIDTH2 := 0x41
  const TS_RWIDTH2 := 0x42
  const TS_HEIGHT2 := 0x43
  const TI_ZCOMP_MODE := 0x61
  const TI_EARLYZ_MODE := 0x62
  const TI_OFFSET := 0x68
  const EZ_Z_CLEAR_VALUE := 0x6a
  const CU_MODE := 0x100
  const CU_BLEND_FUNC := 0x101
  const CU_LOGIC := 0x102
  const CU_CONST_RGBA := 0x103
  const CU_STENCIL_T := 0x105
  const CU_STENCIL_OP := 0x106
  const CU_DEPTH_T := 0x107
  const FU_EZ_EN := 0x118
  const FU_MEM_ADRS_MODE := 0x11b
  const GAS_DELTAZ_DEPTH := 0x126

  const GL_FRONT := 0x404
  const GL_CCW := 0x901

  const BLEND_OFF: U32 := 0x101_0000

  datatype Factors = Factors(srcRGB: nat, dstRGB: nat, srcAlpha: nat, dstAlpha: nat)

  /** The switches that only change the state: no register is written before the next draw call. */
  datatype StateCap = ScissorTest | PolygonOffsetFill | AccelerateTriangles | DepthStencilCopy

  datatype Cap =
    ColorLogicOp | Blend | DepthTest | EarlyDepthTest | StencilTest | CullFace | StateOnly(cap: StateCap) | Invalid

  datatype StateSwitches = StateSwitches(scissorTest: bool, polygonOffset: bool, accelerate: bool, depthCopy: bool)
  {
    predicate On(cap: StateCap) {
      match cap
      case ScissorTest => scissorTest
      case PolygonOffsetFill => polygonOffset
      case AccelerateTriangles => accelerate
      case DepthStencilCopy => depthCopy
    }

    function Set(cap: StateCap, on: bool): (t: StateSwitches)
      ensures t.On(cap) == on && (On(cap) == on ==> t == this)
    {
      match cap
      case ScissorTest => this.(scissorTest := on)
      case PolygonOffsetFill => this.(polygonOffset := on)
      case AccelerateTriangles => this.(accelerate := on)
      case DepthStencilCopy => this.(depthCopy := on)
    }
  }

  datatype GlCall =
    | Enable(cap: Cap, on: bool)
    | BlendFuncSeparate(factors: Factors)

  // The fields of the GL state, and the shadow words g_cu... and g_ti....
  datatype GlState = GlState(
    logicOp: bool, blend: bool, depthTest: bool, earlyDepthTest: bool, stencilTest: bool, cull: bool,
    switches: StateSwitches,
    cullFace: nat, frontFace: nat, block32: bool, forceMode: bool,
    factors: Factors,
    cuBlendFunc: U32, cuDepthTest: U32, cuStencilTest: U32,
    cuStencilOp: U32, cuLogicOp: U32, cuBlendColor: U32, cuGasDepth: U32,
    tiEarlyDepthFunc: U32, tiClearEarlyDepth: U32)

  const GL_ZERO := 0
  const GL_ONE := 1
  const GL_SRC_COLOR := 0x300
  const GL_SRC_ALPHA := 0x302
  const GL_DST_ALPHA := 0x304
  const GL_DST_COLOR := 0x306
  const GL_SRC_ALPHA_SATURATE := 0x308
  const GL_CONSTANT_COLOR := 0x8001
  const GL_CONSTANT_ALPHA := 0x8003

  /** The register encoding of a blend factor. */
  function FactorBits(factor: nat): Option<nat> {
    match factor
    case 0 => Some(0)           // GL_ZERO
    case 1 => Some(1)           // GL_ONE
    case 0x300 => Some(2)       // GL_SRC_COLOR
    case 0x301 => Some(3)
    case 0x306 => Some(4)       // GL_DST_COLOR
    case 0x307 => Some(5)
    case 0x302 => Some(6)       // GL_SRC_ALPHA
    case 0x303 => Some(7)
    case 0x304 => Some(8)       // GL_DST_ALPHA
    case 0x305 => Some(9)
    case 0x8001 => Some(0xa)    // GL_CONSTANT_COLOR
    case 0x8002 => Some(0xb)
    case 0x8003 => Some(0xc)    // GL_CONSTANT_ALPHA
    case 0x8004 => Some(0xd)
    case 0x308 => Some(0xe)     // GL_SRC_ALPHA_SATURATE
    case _ => None
  }

  predicate ValidFactors(f: Factors) {
    && FactorBits(f.srcRGB).Some? && FactorBits(f.dstRGB).Some?
    && FactorBits(f.srcAlpha).Some? && FactorBits(f.dstAlpha).Some?
  }

  function Nibble(factor: nat): (n: nat)
    requires FactorBits(factor).Some?
    ensures n < 16
  {
    FactorBits(factor).value
  }

  /** The blend register for these factors, with the equation bits of `was`. */
  function BlendWord(was: U32, f: Factors): U32
    requires ValidFactors(f)
  {
    was % 0x1_0000 + Nibble(f.srcRGB) * 0x1_0000 + Nibble(f.dstRGB) * 0x10_0000
    + Nibble(f.srcAlpha) * 0x100_0000 + Nibble(f.dstAlpha) * 0x1000_0000
  }

  /** The factor that a code in the register stands for: a family, and whether it is taken as one minus its value. */
  function FactorOf(code: nat): Option<nat> {
    var minus := code % 2;
    match code / 2
    case 0 => Some(if minus == 1 then GL_ONE else GL_ZERO)
    case 1 => Some(GL_SRC_COLOR + minus)
    case 2 => Some(GL_DST_COLOR + minus)
    case 3 => Some(GL_SRC_ALPHA + minus)
    case 4 => Some(GL_DST_ALPHA + minus)
    case 5 => Some(GL_CONSTANT_COLOR + minus)
    case 6 => Some(GL_CONSTANT_ALPHA + minus)
    case 7 => if minus == 0 then Some(GL_SRC_ALPHA_SATURATE) else None
    case _ => None
  }

  /** Factors and codes correspond one to one. */
  lemma FactorsReadBack(factor: nat, code: nat)
    ensures FactorBits(factor) == Some(code) <==> FactorOf(code) == Some(factor)
  {
  }

  /** The factors that a blend word holds, from bit 16 on: source and destination, for the colors and for alpha. */
  function FactorsOf(w: U32): Option<Factors> {
    var srcRGB, dstRGB := FactorOf(w / 0x1_0000 % 16), FactorOf(w / 0x10_0000 % 16);
    var srcAlpha, dstAlpha := FactorOf(w / 0x100_0000 % 16), FactorOf(w / 0x1000_0000);
    if srcRGB.None? || dstRGB.None? || srcAlpha.None? || dstAlpha.None? then None
    else Some(Factors(srcRGB.value, dstRGB.value, srcAlpha.value, dstAlpha.value))
  }

  /** Putting factors into a word and reading them back gives them again, and leaves the equation bits. */
  lemma BlendWordReadsBack(was: U32, f: Factors)
    requires ValidFactors(f)
    ensures FactorsOf(BlendWord(was, f)) == Some(f) && BlendWord(was, f) % 0x1_0000 == was % 0x1_0000
  {
    hide FactorBits, FactorOf;
    FactorsReadBack(f.srcRGB, Nibble(f.srcRGB));
    FactorsReadBack(f.dstRGB, Nibble(f.dstRGB));
    FactorsReadBack(f.srcAlpha, Nibble(f.srcAlpha));
    FactorsReadBack(f.dstAlpha, Nibble(f.dstAlpha));
    UpperNibbles(was % 0x1_0000, Nibble(f.srcRGB), Nibble(f.dstRGB), Nibble(f.srcAlpha), Nibble(f.dstAlpha));
  }

  /** A word that holds these factors already stays the same. */
  lemma BlendWordStays(w: U32, f: Factors)
    requires FactorsOf(w) == Some(f)
    ensures ValidFactors(f) && BlendWord(w, f) == w
  {
    hide FactorBits, FactorOf;
    var a, b, c, d := w / 0x1_0000 % 16, w / 0x10_0000 % 16, w / 0x100_0000 % 16, w / 0x1000_0000;
    FactorsReadBack(f.srcRGB, a);
    FactorsReadBack(f.dstRGB, b);
    FactorsReadBack(f.srcAlpha, c);
    FactorsReadBack(f.dstAlpha, d);
    NibblesOf(w);
  }

  lemma NibblesOf(w: U32)
    ensures w == w % 0x1_0000 + w / 0x1_0000 % 16 * 0x1_0000 + w / 0x10_0000 % 16 * 0x10_0000
                 + w / 0x100_0000 % 16 * 0x100_0000 + w / 0x1000_0000 * 0x1000_0000
  {
    var h := w / 0x1_0000;
    assert w / 0x10_0000 == h / 16 && w / 0x100_0000 == h / 16 / 16 && w / 0x1000_0000 == h / 16 / 16 / 16;
  }

  lemma UpperNibbles(low: nat, a: nat, b: nat, c: nat, d: nat)
    requires low < 0x1_0000 && a < 16 && b < 16 && c < 16 && d < 16
    ensures var w := low + a * 0x1_0000 + b * 0x10_0000 + c * 0x100_0000 + d * 0x1000_0000;
            && w / 0x1_0000 % 16 == a && w / 0x10_0000 % 16 == b && w / 0x100_0000 % 16 == c
            && w / 0x1000_0000 == d && w % 0x1_0000 == low
  {
    var w := low + a * 0x1_0000 + b * 0x10_0000 + c * 0x100_0000 + d * 0x1000_0000;
    var h := a + 16 * (b + 16 * (c + 16 * d));
    assert w == low + 0x1_0000 * h;
    assert w / 0x1_0000 == h;
    assert w / 0x10_0000 == h / 16 == b + 16 * (c + 16 * d);
    assert w / 0x100_0000 == h / 16 / 16 == c + 16 * d;
    assert w / 0x1000_0000 == h / 16 / 16 / 16;
  }

  /** `w | 1` or `w & ~1`. */
  function SetBit0(w: U32, on: bool): U32 {
    w / 2 * 2 + if on then 1 else 0
  }

  /** The lowest bit is the switch, and the others stay. */
  lemma BitIsSet(w: U32, on: bool)
    ensures SetBit0(w, on) % 2 == (if on then 1 else 0) && SetBit0(w, on) / 2 == w / 2
  {
  }

  /** A word whose lowest bit is the switch already stays the same. */
  lemma BitStays(w: U32, on: bool)
    requires w % 2 == if on then 1 else 0
    ensures SetBit0(w, on) == w
  {
  }

  function CullMode(s: GlState): U32 {
    if (s.cullFace == GL_FRONT) != (s.frontFace == GL_CCW) then 2 else 1
  }

  function BlendReg(s: GlState): U32 {
    if s.blend then s.cuBlendFunc else BLEND_OFF
  }

  // ---- the driver as written ----

  function IsOn(s: GlState, cap: Cap): bool {
    match cap
    case ColorLogicOp => s.logicOp
    case Blend => s.blend
    case DepthTest => s.depthTest
    case EarlyDepthTest => s.earlyDepthTest
    case StencilTest => s.stencilTest
    case CullFace => s.cull
    case StateOnly(c) => s.switches.On(c)
    case Invalid => false
  }

  /** The state after the switch is set, whatever it was before. */
  function Switched(s: GlState, cap: Cap, on: bool): GlState {
    match cap
    case ColorLogicOp => s.(logicOp := on)
    case Blend => s.(blend := on)
    case DepthTest => s.(depthTest := on, cuDepthTest := SetBit0(s.cuDepthTest, on))
    case EarlyDepthTest => s.(earlyDepthTest := on)
    case StencilTest => s.(stencilTest := on, cuStencilTest := SetBit0(s.cuStencilTest, on))
    case CullFace => s.(cull := on)
    case StateOnly(c) => s.(switches := s.switches.Set(c, on))
    case Invalid => s
  }

  function Reblended(s: GlState, f: Factors): GlState {
    if ValidFactors(f) then s.(factors := f, cuBlendFunc := BlendWord(s.cuBlendFunc, f)) else s
  }

  /** The call changes nothing that the driver looks at, and is left out. */
  predicate Elided(s: GlState, c: GlCall) {
    !s.forceMode && match c
                    case Enable(cap, on) => cap.Invalid? || IsOn(s, cap) == on
                    case BlendFuncSeparate(f) => s.factors == f
  }

  function Next(s: GlState, c: GlCall): GlState {
    if Elided(s, c) then s
    else
      match c
      case Enable(cap, on) => Switched(s, cap, on)
      case BlendFuncSeparate(f) => Reblended(s, f)
  }

  function LogicWrites(s: GlState): seq<Write> {
    if s.logicOp then [Write(CU_MODE, 2, 0)]
    else [Write(CU_BLEND_FUNC, 0xf, BlendReg(s)), Write(CU_MODE, 2, 0x100)]
  }

  /** The register writes of a switch, where `t` is the state it leads to. */
  function SwitchWrites(t: GlState, cap: Cap): seq<Write> {
    match cap
    case ColorLogicOp => LogicWrites(t)
    case Blend => LogicWrites(t)
    case DepthTest => [Write(CU_DEPTH_T, 1, t.cuDepthTest)]
    case EarlyDepthTest => EarlyZWrites(t)
    case StencilTest => [Write(CU_STENCIL_T, 1, t.cuStencilTest)]
    case CullFace => CullWrites(t)
    case _ => []
  }

  /** The register writes of a call. */
  function Writes(s: GlState, c: GlCall): seq<Write> {
    var t := Next(s, c);
    if Elided(s, c) then []
    else
      match c
      case Enable(cap, _) => SwitchWrites(t, cap)
      case BlendFuncSeparate(f) =>
        if !ValidFactors(f) then []
        else if t.blend && !t.logicOp then [Write(CU_BLEND_FUNC, 0xc, t.cuBlendFunc)]
        else if t.forceMode then [Write(CU_BLEND_FUNC, 0xc, BLEND_OFF)]
        else []
  }

  function EarlyZWrites(s: GlState): seq<Write> {
    var bit := if s.earlyDepthTest then 1 else 0;
    [Write(TI_EARLYZ_MODE, 1, bit), Write(FU_EZ_EN, 1, bit)]
  }

  function CullWrites(s: GlState): seq<Write> {
    [Write(TS_CULLMODE, 0xf, if s.cull then CullMode(s) else 0)]
  }

  // ---- a driver that always writes everything ----

  function EagerNext(s: GlState, c: GlCall): GlState {
    match c
    case Enable(cap, on) => Switched(s, cap, on)
    case BlendFuncSeparate(f) => Reblended(s, f)
  }

  function EagerWrites(s: GlState, c: GlCall): seq<Write> {
    var t := EagerNext(s, c);
    LogicWrites(t) + [Write(CU_DEPTH_T, 1, t.cuDepthTest)] + EarlyZWrites(t)
    + [Write(CU_STENCIL_T, 1, t.cuStencilTest)] + CullWrites(t)
  }

  // ---- the validator ----

  // The words computed from the viewport; the float conversions are not part of this model.
  datatype Viewport = Viewport(width2: U32, height2: U32, sizes: Option<(U32, U32)>, offset: U32)

  function ViewportWrites(v: Viewport): seq<Write> {
    [Write(TS_WIDTH2, 0xf, v.width2), Write(TS_HEIGHT2, 0xf, v.height2)]
    + (if v.sizes.None? then []
       else [Write(TS_RWIDTH2, 0xf, v.sizes.value.0), Write(TS_RWIDTH2 + 2, 0xf, v.sizes.value.1)])
    + [Write(TI_OFFSET, 0xf, v.offset)]
  }

  function DepthWrites(s: GlState): seq<Write> {
    [Write(CU_DEPTH_T, 3, s.cuDepthTest), Write(GAS_DELTAZ_DEPTH, 8, s.cuGasDepth)]
  }

  function ModeWrites(s: GlState): seq<Write> {
    [Write(TI_ZCOMP_MODE, 1, s.tiEarlyDepthFunc), Write(EZ_Z_CLEAR_VALUE, 7, s.tiClearEarlyDepth),
     Write(CU_LOGIC, 0xf, s.cuLogicOp)]
  }

  function StencilWrites(s: GlState): seq<Write> {
    [Write(FU_MEM_ADRS_MODE, 1, if s.block32 then 1 else 0), Write(CU_STENCIL_T, 0xf, s.cuStencilTest),
     Write(CU_STENCIL_OP, 0xf, s.cuStencilOp), Write(CU_CONST_RGBA, 0xf, s.cuBlendColor)]
  }

  function ValidateWrites(s: GlState, v: Viewport): seq<Write> {
    ViewportWrites(v) + DepthWrites(s) + EarlyZWrites(s) + ModeWrites(s) + LogicWrites(s) + CullWrites(s)
    + StencilWrites(s)
  }

  // ---- what the two drivers have in common ----

  /** The shadow words say the same as the state fields they are derived from. */
  predicate Consistent(s: GlState) {
    && s.cuDepthTest % 2 == (if s.depthTest then 1 else 0)
    && s.cuStencilTest % 2 == (if s.stencilTest then 1 else 0)
    && FactorsOf(s.cuBlendFunc) == Some(s.factors)
  }

  /** The registers hold what the GL state asks for; with the logic operation on, the blend register does not matter. */
  predicate Coherent(s: GlState, r: RegFile) {
    && Get(r, CU_MODE).b1 == (if s.logicOp then 0 else 1)
    && (!s.logicOp ==> Get(r, CU_BLEND_FUNC) == RegOf(BlendReg(s)))
    && Get(r, CU_DEPTH_T).b0 == RegOf(s.cuDepthTest).b0
    && Get(r, CU_STENCIL_T).b0 == RegOf(s.cuStencilTest).b0
    && Get(r, TI_EARLYZ_MODE).b0 == (if s.earlyDepthTest then 1 else 0)
    && Get(r, FU_EZ_EN).b0 == (if s.earlyDepthTest then 1 else 0)
    && Get(r, TS_CULLMODE) == RegOf(if s.cull then CullMode(s) else 0)
  }

  /** The part of the registers that this state looks at. */
  predicate SameView(s: GlState, r: RegFile, r': RegFile) {
    && Get(r, CU_MODE).b1 == Get(r', CU_MODE).b1
    && (!s.logicOp ==> Get(r, CU_BLEND_FUNC) == Get(r', CU_BLEND_FUNC))
    && Get(r, CU_DEPTH_T).b0 == Get(r', CU_DEPTH_T).b0 && Get(r, CU_STENCIL_T).b0 == Get(r', CU_STENCIL_T).b0
    && Get(r, TI_EARLYZ_MODE).b0 == Get(r', TI_EARLYZ_MODE).b0 && Get(r, FU_EZ_EN).b0 == Get(r', FU_EZ_EN).b0
    && Get(r, TS_CULLMODE) == Get(r', TS_CULLMODE)
  }

  // ---- the two drivers agree ----

  /** From consistent shadows, leaving a call out changes nothing in the state. */
  lemma NextIsEager(s: GlState, c: GlCall)
    requires Consistent(s)
    ensures Next(s, c) == EagerNext(s, c)
  {
    hide ValidFactors, BlendWord, SetBit0, FactorBits, FactorsOf, Switched, IsOn;
    if c.Enable? && (c.cap.Invalid? || IsOn(s, c.cap) == c.on) {
      SwitchedAlready(s, c.cap, c.on);
    }
    if c == BlendFuncSeparate(s.factors) {
      BlendWordStays(s.cuBlendFunc, s.factors);
    }
  }

  lemma SwitchedAlready(s: GlState, cap: Cap, on: bool)
    requires Consistent(s) && (cap.Invalid? || IsOn(s, cap) == on)
    ensures Switched(s, cap, on) == s
  {
    hide ValidFactors, BlendWord, SetBit0, FactorBits, FactorsOf;
    BitStays(s.cuDepthTest, s.depthTest);
    BitStays(s.cuStencilTest, s.stencilTest);
  }

  lemma NextConsistent(s: GlState, c: GlCall)
    requires Consistent(s)
    ensures Consistent(Next(s, c))
  {
    hide BlendWord, SetBit0, ValidFactors, FactorsOf;
    if !Elided(s, c) {
      match c
      case Enable(cap, on) => SwitchedConsistent(s, cap, on);
      case BlendFuncSeparate(f) =>
        if ValidFactors(f) {
          BlendWordReadsBack(s.cuBlendFunc, f);
        }
    }
  }

  lemma SwitchedConsistent(s: GlState, cap: Cap, on: bool)
    requires Consistent(s)
    ensures Consistent(Switched(s, cap, on))
  {
    hide BlendWord, SetBit0, ValidFactors, FactorsOf;
    match cap
    case ColorLogicOp =>
    case Blend =>
    case DepthTest => BitIsSet(s.cuDepthTest, on);
    case EarlyDepthTest =>
    case StencilTest => BitIsSet(s.cuStencilTest, on);
    case CullFace =>
    case StateOnly(_) =>
    case Invalid =>
  }

  // What each group of writes makes of its registers, whatever they were.
  lemma LogicGroup(s: GlState, r: RegFile)
    ensures var q := ApplyAll(r, LogicWrites(s));
            && Get(q, CU_MODE).b1 == (if s.logicOp then 0 else 1)
            && (!s.logicOp ==> Get(q, CU_BLEND_FUNC) == RegOf(BlendReg(s)))
  {
    var mode := Write(CU_MODE, 2, if s.logicOp then 0 else 0x100);
    Apply1(r, mode);
    Apply2(r, Write(CU_BLEND_FUNC, 0xf, BlendReg(s)), mode);
  }

  lemma DepthGroup(s: GlState, r: RegFile)
    ensures Get(ApplyAll(r, DepthWrites(s)), CU_DEPTH_T).b0 == RegOf(s.cuDepthTest).b0
    ensures Get(ApplyAll(r, [Write(CU_DEPTH_T, 1, s.cuDepthTest)]), CU_DEPTH_T).b0 == RegOf(s.cuDepthTest).b0
  {
    Apply2(r, Write(CU_DEPTH_T, 3, s.cuDepthTest), Write(GAS_DELTAZ_DEPTH, 8, s.cuGasDepth));
    Apply1(r, Write(CU_DEPTH_T, 1, s.cuDepthTest));
  }

  lemma StencilGroup(s: GlState, r: RegFile, be: nat)
    requires be % 2 == 1
    ensures Get(ApplyAll(r, [Write(CU_STENCIL_T, be, s.cuStencilTest)]), CU_STENCIL_T).b0 == RegOf(s.cuStencilTest).b0
  {
    Apply1(r, Write(CU_STENCIL_T, be, s.cuStencilTest));
  }

  lemma EarlyZGroup(s: GlState, r: RegFile)
    ensures var q, bit := ApplyAll(r, EarlyZWrites(s)), if s.earlyDepthTest then 1 else 0;
            Get(q, TI_EARLYZ_MODE).b0 == bit && Get(q, FU_EZ_EN).b0 == bit
  {
    var bit := if s.earlyDepthTest then 1 else 0;
    Apply2(r, Write(TI_EARLYZ_MODE, 1, bit), Write(FU_EZ_EN, 1, bit));
  }

  lemma CullGroup(s: GlState, r: RegFile)
    ensures Get(ApplyAll(r, CullWrites(s)), TS_CULLMODE) == RegOf(if s.cull then CullMode(s) else 0)
  {
    Apply1(r, CullWrites(s)[0]);
  }

  // ---- the register files ----

  /** After vldtr_validateOthers the registers are coherent with the state, whatever they were before. */
  lemma ValidateEstablishes(s: GlState, v: Viewport, r: RegFile)
    ensures Coherent(s, ApplyAll(r, ValidateWrites(s, v)))
  {
    hide ApplyAll, ValidateWrites;
    ValidatedTests(s, v, r);
    ValidatedModes(s, v, r);
    ValidatedStencil(s, v, r);
  }

  lemma ValidatedTests(s: GlState, v: Viewport, r: RegFile)
    ensures var q, bit := ApplyAll(r, ValidateWrites(s, v)), if s.earlyDepthTest then 1 else 0;
            && Get(q, CU_DEPTH_T).b0 == RegOf(s.cuDepthTest).b0
            && Get(q, TI_EARLYZ_MODE).b0 == bit && Get(q, FU_EZ_EN).b0 == bit
  {
    hide ApplyAll;
    var a, b, c, d := ViewportWrites(v), DepthWrites(s), EarlyZWrites(s), ModeWrites(s);
    var e, f, g := LogicWrites(s), CullWrites(s), StencilWrites(s);
    var ws := ValidateWrites(s, v);
    assert ws == a + b + (c + d + e + f + g) == (a + b) + c + (d + e + f + g);
    LastGroup(r, a, b, c + d + e + f + g, CU_DEPTH_T);
    DepthGroup(s, ApplyAll(r, a));
    LastGroup(r, a + b, c, d + e + f + g, TI_EARLYZ_MODE);
    LastGroup(r, a + b, c, d + e + f + g, FU_EZ_EN);
    EarlyZGroup(s, ApplyAll(r, a + b));
  }

  lemma ValidatedModes(s: GlState, v: Viewport, r: RegFile)
    ensures var q := ApplyAll(r, ValidateWrites(s, v));
            && Get(q, CU_MODE).b1 == (if s.logicOp then 0 else 1)
            && (!s.logicOp ==> Get(q, CU_BLEND_FUNC) == RegOf(BlendReg(s)))
            && Get(q, TS_CULLMODE) == RegOf(if s.cull then CullMode(s) else 0)
  {
    hide ApplyAll;
    var a, b, c, d := ViewportWrites(v), DepthWrites(s), EarlyZWrites(s), ModeWrites(s);
    var e, f, g := LogicWrites(s), CullWrites(s), StencilWrites(s);
    var ws := ValidateWrites(s, v);
    assert ws == (a + b + c + d) + e + (f + g) == (a + b + c + d + e) + f + g;
    LastGroup(r, a + b + c + d, e, f + g, CU_MODE);
    LastGroup(r, a + b + c + d, e, f + g, CU_BLEND_FUNC);
    LogicGroup(s, ApplyAll(r, a + b + c + d));
    LastGroup(r, a + b + c + d + e, f, g, TS_CULLMODE);
    CullGroup(s, ApplyAll(r, a + b + c + d + e));
  }

  lemma ValidatedStencil(s: GlState, v: Viewport, r: RegFile)
    ensures Get(ApplyAll(r, ValidateWrites(s, v)), CU_STENCIL_T).b0 == RegOf(s.cuStencilTest).b0
  {
    hide ApplyAll;
    var g := StencilWrites(s);
    var before := ViewportWrites(v) + DepthWrites(s) + EarlyZWrites(s) + ModeWrites(s) + LogicWrites(s)
                  + CullWrites(s) + g[..1];
    var stencil := g[1..2];
    assert ValidateWrites(s, v) == before + stencil + g[2..];
    assert stencil == [Write(CU_STENCIL_T, 0xf, s.cuStencilTest)];
    LastGroup(r, before, stencil, g[2..], CU_STENCIL_T);
    StencilGroup(s, ApplyAll(r, before), 0xf);
  }

  /** The registers of the driver that always writes are coherent after every call, whatever they were before. */
  lemma EagerEstablishes(s: GlState, c: GlCall, r: RegFile)
    ensures Coherent(EagerNext(s, c), ApplyAll(r, EagerWrites(s, c)))
  {
    hide ApplyAll, EagerNext;
    var t := EagerNext(s, c);
    var a, b, d := LogicWrites(t), [Write(CU_DEPTH_T, 1, t.cuDepthTest)], EarlyZWrites(t);
    var e, f := [Write(CU_STENCIL_T, 1, t.cuStencilTest)], CullWrites(t);
    var ws := EagerWrites(s, c);
    assert ws == [] + a + (b + d + e + f) == a + b + (d + e + f) == (a + b) + d + (e + f)
              == (a + b + d) + e + f == (a + b + d + e) + f + [];
    LastGroup(r, [], a, b + d + e + f, CU_MODE);
    LastGroup(r, [], a, b + d + e + f, CU_BLEND_FUNC);
    LogicGroup(t, ApplyAll(r, []));
    LastGroup(r, a, b, d + e + f, CU_DEPTH_T);
    DepthGroup(t, ApplyAll(r, a));
    LastGroup(r, a + b, d, e + f, TI_EARLYZ_MODE);
    LastGroup(r, a + b, d, e + f, FU_EZ_EN);
    EarlyZGroup(t, ApplyAll(r, a + b));
    LastGroup(r, a + b + d, e, f, CU_STENCIL_T);
    StencilGroup(t, ApplyAll(r, a + b + d), 1);
    LastGroup(r, a + b + d + e, f, [], TS_CULLMODE);
    CullGroup(t, ApplyAll(r, a + b + d + e));
  }

  // A register that a call does not write keeps its value.
  lemma Away(r: RegFile, ws: seq<Write>, addr: nat)
    ensures (forall k :: 0 <= k < |ws| ==> ws[k].addr != addr) ==> Get(ApplyAll(r, ws), addr) == Get(r, addr)
  {
    if forall k :: 0 <= k < |ws| ==> ws[k].addr != addr {
      Untouched(r, ws, addr);
    }
  }

  lemma AwayAll(r: RegFile, ws: seq<Write>)
    ensures forall addr
              | addr in {CU_MODE, CU_BLEND_FUNC, CU_DEPTH_T, CU_STENCIL_T, TI_EARLYZ_MODE, FU_EZ_EN, TS_CULLMODE} ::
              (forall k :: 0 <= k < |ws| ==> ws[k].addr != addr) ==> Get(ApplyAll(r, ws), addr) == Get(r, addr)
  {
    forall addr | addr in {CU_MODE, CU_BLEND_FUNC, CU_DEPTH_T, CU_STENCIL_T, TI_EARLYZ_MODE, FU_EZ_EN, TS_CULLMODE}
      ensures (forall k :: 0 <= k < |ws| ==> ws[k].addr != addr) ==> Get(ApplyAll(r, ws), addr) == Get(r, addr)
    {
      Away(r, ws, addr);
    }
  }

  lemma LogicKeepsCoherent(s: GlState, t: GlState, r: RegFile)
    requires Coherent(s, r) && (t == s.(logicOp := t.logicOp) || t == s.(blend := t.blend))
    ensures Coherent(t, ApplyAll(r, LogicWrites(t)))
  {
    hide ApplyAll, RegOf;
    AwayAll(r, LogicWrites(t));
    LogicGroup(t, r);
  }

  lemma DepthKeepsCoherent(s: GlState, on: bool, r: RegFile)
    requires Coherent(s, r)
    ensures var t := Switched(s, DepthTest, on);
            Coherent(t, ApplyAll(r, [Write(CU_DEPTH_T, 1, t.cuDepthTest)]))
  {
    hide ApplyAll, RegOf, SetBit0;
    var t := Switched(s, DepthTest, on);
    AwayAll(r, [Write(CU_DEPTH_T, 1, t.cuDepthTest)]);
    DepthGroup(t, r);
  }

  lemma StencilKeepsCoherent(s: GlState, on: bool, r: RegFile)
    requires Coherent(s, r)
    ensures var t := Switched(s, StencilTest, on);
            Coherent(t, ApplyAll(r, [Write(CU_STENCIL_T, 1, t.cuStencilTest)]))
  {
    hide ApplyAll, RegOf, SetBit0;
    var t := Switched(s, StencilTest, on);
    AwayAll(r, [Write(CU_STENCIL_T, 1, t.cuStencilTest)]);
    StencilGroup(t, r, 1);
  }

  lemma EarlyZKeepsCoherent(s: GlState, on: bool, r: RegFile)
    requires Coherent(s, r)
    ensures var t := Switched(s, EarlyDepthTest, on);
            Coherent(t, ApplyAll(r, EarlyZWrites(t)))
  {
    hide ApplyAll, RegOf;
    var t := Switched(s, EarlyDepthTest, on);
    AwayAll(r, EarlyZWrites(t));
    EarlyZGroup(t, r);
  }

  lemma CullKeepsCoherent(s: GlState, on: bool, r: RegFile)
    requires Coherent(s, r)
    ensures var t := Switched(s, CullFace, on);
            Coherent(t, ApplyAll(r, CullWrites(t)))
  {
    hide ApplyAll, RegOf;
    var t := Switched(s, CullFace, on);
    AwayAll(r, CullWrites(t));
    CullGroup(t, r);
  }

  lemma StateOnlyKeepsCoherent(s: GlState, cap: Cap, on: bool, r: RegFile)
    requires Coherent(s, r) && cap.StateOnly?
    ensures Coherent(Switched(s, cap, on), ApplyAll(r, []))
  {
  }

  lemma LowBytes(w: U32)
    ensures RegOf(w).b0 == w % 0x1_0000 % 0x100 && RegOf(w).b1 == w % 0x1_0000 / 0x100
  {
    var q, l := w / 0x1_0000, w % 0x1_0000;
    assert w == 0x100 * (0x100 * q + l / 0x100) + l % 0x100;
  }

  /** The upper half of the blend register is all that a change of factors has to write. */
  lemma UpperHalf(reg: Reg, w: U32, w': U32)
    requires reg == RegOf(w) && w % 0x1_0000 == w' % 0x1_0000
    ensures Merge(reg, 0xc, RegOf(w')) == RegOf(w')
  {
    hide RegOf;
    LowBytes(w);
    LowBytes(w');
  }

  lemma BlendKeepsCoherent(s: GlState, f: Factors, r: RegFile)
    requires Coherent(s, r) && !Elided(s, BlendFuncSeparate(f)) && ValidFactors(f)
    ensures Coherent(Reblended(s, f), ApplyAll(r, Writes(s, BlendFuncSeparate(f))))
  {
    hide ApplyAll, RegOf, BlendWord, FactorsOf;
    var t, ws := Reblended(s, f), Writes(s, BlendFuncSeparate(f));
    AwayAll(r, ws);
    if ws != [] {
      Apply1(r, ws[0]);
      assert ws == [ws[0]];
      if !s.logicOp {
        BlendWordReadsBack(s.cuBlendFunc, f);
        UpperHalf(Get(r, CU_BLEND_FUNC), BlendReg(s), BlendReg(t));
      }
    }
  }

  lemma EnableKeepsCoherent(s: GlState, cap: Cap, on: bool, r: RegFile)
    requires Coherent(s, r) && !Elided(s, Enable(cap, on))
    ensures Coherent(Switched(s, cap, on), ApplyAll(r, Writes(s, Enable(cap, on))))
  {
    hide Coherent, LogicWrites, EarlyZWrites, CullWrites, SetBit0, ApplyAll;
    var t := Switched(s, cap, on);
    match cap
    case ColorLogicOp => LogicKeepsCoherent(s, t, r);
    case Blend => LogicKeepsCoherent(s, t, r);
    case DepthTest => DepthKeepsCoherent(s, on, r);
    case EarlyDepthTest => EarlyZKeepsCoherent(s, on, r);
    case StencilTest => StencilKeepsCoherent(s, on, r);
    case CullFace => CullKeepsCoherent(s, on, r);
    case StateOnly(_) => StateOnlyKeepsCoherent(s, cap, on, r);
    case Invalid => Apply0(r);
  }

  lemma Apply0(r: RegFile)
    ensures ApplyAll(r, []) == r
  {
  }

  /** The driver as written keeps the registers coherent, although it leaves out writes and puts some off. */
  lemma CallKeepsCoherent(s: GlState, c: GlCall, r: RegFile)
    requires Coherent(s, r)
    ensures Coherent(Next(s, c), ApplyAll(r, Writes(s, c)))
  {
    hide Coherent, Switched, FactorBits, BlendWord, ApplyAll, LogicWrites, EarlyZWrites, CullWrites;
    Apply0(r);
    if !Elided(s, c) {
      match c
      case Enable(cap, on) => EnableKeepsCoherent(s, cap, on, r);
      case BlendFuncSeparate(f) =>
        if ValidFactors(f) {
          BlendKeepsCoherent(s, f, r);
        }
    }
  }

  // ---- what the registers say ----

  /** The hardware reads the switches, the factors and the culled side from the registers. */
  predicate Shows(s: GlState, r: RegFile) {
    var blend := Get(r, CU_BLEND_FUNC);
    && Get(r, CU_MODE).b1 == (if s.logicOp then 0 else 1)
    && Get(r, CU_DEPTH_T).b0 % 2 == (if s.depthTest then 1 else 0)
    && Get(r, CU_STENCIL_T).b0 % 2 == (if s.stencilTest then 1 else 0)
    && Get(r, TI_EARLYZ_MODE).b0 == Get(r, FU_EZ_EN).b0 == (if s.earlyDepthTest then 1 else 0)
    && Get(r, TS_CULLMODE).b0 == (if !s.cull then 0
                                  else if s.cullFace == GL_FRONT <==> s.frontFace == GL_CCW then 1 else 2)
    && (!s.logicOp ==>
          var f := if s.blend then s.factors else Factors(GL_ONE, GL_ZERO, GL_ONE, GL_ZERO);
          && FactorOf(blend.b2 % 16) == Some(f.srcRGB) && FactorOf(blend.b2 / 16) == Some(f.dstRGB)
          && FactorOf(blend.b3 % 16) == Some(f.srcAlpha) && FactorOf(blend.b3 / 16) == Some(f.dstAlpha))
  }

  /** Coherent registers show the state, when its shadow words say the same as its fields. */
  lemma CoherentShows(s: GlState, r: RegFile)
    requires Consistent(s) && Coherent(s, r)
    ensures Shows(s, r)
  {
    hide FactorOf;
    NibblesShown(BlendReg(s));
    BlendOffShown();
    LowBitShown(s.cuDepthTest);
    LowBitShown(s.cuStencilTest);
  }

  lemma LowBitShown(w: U32)
    ensures RegOf(w).b0 % 2 == w % 2
  {
    assert w == 2 * (128 * (w / 0x100)) + w % 0x100;
  }

  lemma NibblesShown(w: U32)
    ensures RegOf(w).b2 % 16 == w / 0x1_0000 % 16 && RegOf(w).b2 / 16 == w / 0x10_0000 % 16
    ensures RegOf(w).b3 % 16 == w / 0x100_0000 % 16 && RegOf(w).b3 / 16 == w / 0x1000_0000
  {
    var h := w / 0x1_0000;
    assert w / 0x10_0000 == h / 16 && w / 0x100_0000 == h / 256 && w / 0x1000_0000 == h / 256 / 16;
  }

  /** Switched off, blending takes the source as it is and nothing of the destination. */
  lemma BlendOffShown()
    ensures FactorsOf(BLEND_OFF) == Some(Factors(GL_ONE, GL_ZERO, GL_ONE, GL_ZERO))
  {
  }

  /** Reversing either the culled face or the winding exchanges the two modes. */
  lemma CullReversed(s: GlState, t: GlState)
    requires (s.cullFace == GL_FRONT) != (t.cullFace == GL_FRONT)
             <==> (s.frontFace == GL_CCW) == (t.frontFace == GL_CCW)
    ensures {CullMode(s), CullMode(t)} == {1, 2}
  {
  }

  // ---- whole runs ----

  function NextAll(s: GlState, cs: seq<GlCall>): GlState
    decreases |cs|
  {
    if cs == [] then s else NextAll(Next(s, cs[0]), cs[1..])
  }

  function AllWrites(s: GlState, cs: seq<GlCall>): seq<Write>
    decreases |cs|
  {
    if cs == [] then [] else Writes(s, cs[0]) + AllWrites(Next(s, cs[0]), cs[1..])
  }

  function EagerNextAll(s: GlState, cs: seq<GlCall>): GlState
    decreases |cs|
  {
    if cs == [] then s else EagerNextAll(EagerNext(s, cs[0]), cs[1..])
  }

  function AllEagerWrites(s: GlState, cs: seq<GlCall>): seq<Write>
    decreases |cs|
  {
    if cs == [] then [] else EagerWrites(s, cs[0]) + AllEagerWrites(EagerNext(s, cs[0]), cs[1..])
  }

  /** Over any run of calls from coherent registers, the driver as written stays coherent. */
  lemma {:induction false} RunKeepsCoherent(s: GlState, cs: seq<GlCall>, r: RegFile)
    requires Coherent(s, r)
    ensures Coherent(NextAll(s, cs), ApplyAll(r, AllWrites(s, cs)))
    decreases |cs|
  {
    hide Coherent, Next, Writes;
    if cs != [] {
      CallKeepsCoherent(s, cs[0], r);
      ApplyAppend(r, Writes(s, cs[0]), AllWrites(Next(s, cs[0]), cs[1..]));
      RunKeepsCoherent(Next(s, cs[0]), cs[1..], ApplyAll(r, Writes(s, cs[0])));
    }
  }

  lemma {:induction false} EagerRunCoherent(s: GlState, cs: seq<GlCall>, r: RegFile)
    requires Coherent(s, r)
    ensures Coherent(EagerNextAll(s, cs), ApplyAll(r, AllEagerWrites(s, cs)))
    decreases |cs|
  {
    hide Coherent, EagerNext, EagerWrites;
    if cs != [] {
      EagerEstablishes(s, cs[0], r);
      ApplyAppend(r, EagerWrites(s, cs[0]), AllEagerWrites(EagerNext(s, cs[0]), cs[1..]));
      EagerRunCoherent(EagerNext(s, cs[0]), cs[1..], ApplyAll(r, EagerWrites(s, cs[0])));
    }
  }

  lemma {:induction false} RunsShareStates(s: GlState, cs: seq<GlCall>)
    requires Consistent(s)
    ensures NextAll(s, cs) == EagerNextAll(s, cs)
    decreases |cs|
  {
    hide Consistent, Next, EagerNext;
    if cs != [] {
      NextIsEager(s, cs[0]);
      NextConsistent(s, cs[0]);
      RunsShareStates(Next(s, cs[0]), cs[1..]);
    }
  }

  /**
   The elided writes refine the eager ones. After vldtr_validateOthers, on any registers, and any run of glEnable,
   glDisable and glBlendFuncSeparate, a driver that always writes everything has the same state and shows the hardware
   the same registers as the driver as written; and they show the switches, factors and culled side of that state.
   */
  lemma ElidedRefinesEager(s: GlState, v: Viewport, cs: seq<GlCall>, r: RegFile)
    requires Consistent(s)
    ensures NextAll(s, cs) == EagerNextAll(s, cs)
    ensures var start := ValidateWrites(s, v);
            && Coherent(NextAll(s, cs), ApplyAll(r, start + AllWrites(s, cs)))
            && SameView(NextAll(s, cs),
                        ApplyAll(r, start + AllWrites(s, cs)), ApplyAll(r, start + AllEagerWrites(s, cs)))
            && Shows(NextAll(s, cs), ApplyAll(r, start + AllWrites(s, cs)))
  {
    hide Shows, Coherent, SameView, Consistent, ApplyAll, NextAll, EagerNextAll, AllWrites, AllEagerWrites;
    hide ValidateWrites;
    var start := ValidateWrites(s, v);
    var q := ApplyAll(r, start);
    ValidateEstablishes(s, v, r);
    RunKeepsCoherent(s, cs, q);
    EagerRunCoherent(s, cs, q);
    RunsShareStates(s, cs);
    ApplyAppend(r, start, AllWrites(s, cs));
    ApplyAppend(r, start, AllEagerWrites(s, cs));
    CoherentViews(NextAll(s, cs), ApplyAll(q, AllWrites(s, cs)), ApplyAll(q, AllEagerWrites(s, cs)));
    RunConsistent(s, cs);
    CoherentShows(NextAll(s, cs), ApplyAll(q, AllWrites(s, cs)));
  }

  lemma CoherentViews(s: GlState, r: RegFile, r': RegFile)
    requires Coherent(s, r) && Coherent(s, r')
    ensures SameView(s, r, r')
  {
  }

  lemma {:induction false} RunConsistent(s: GlState, cs: seq<GlCall>)
    requires Consistent(s)
    ensures Consistent(NextAll(s, cs))
    decreases |cs|
  {
    hide Consistent, Next;
    if cs != [] {
      NextConsistent(s, cs[0]);
      RunConsistent(Next(s, cs[0]), cs[1..]);
    }
  }
}
