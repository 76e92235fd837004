/**
 glEnable, glDisable (enable.c), glBlendFuncSeparate (fragopstate.c) and vldtr_validateOthers (statevalidator.c) on
 the GL state, the shadow words and the command buffer.
 */
module GlFrontEnd {
  import opened CommandStream
  import opened CommandBuffers
  import opened BlendSpec
  import opened GlView
  import opened Wrappers

  const GL_INVALID_ENUM := 0x500
  const GL_ERROR_COMMANDBUFFER_FULL_DMP := 0x9800

  /** __err_setError: the first error stays until it is read. 0 is no error. */
  function Sticky(error: nat, raised: nat): nat {
    if error == 0 then raised else error
  }

  function FullError(full: bool): nat {
    if full then GL_ERROR_COMMANDBUFFER_FULL_DMP else 0
  }

  class GlContext {
    const cb: CommandBuffer
    var s: GlState
    var error: nat
    // IF_GL_FB_ACCESS, IF_GL_FB_SCISSOR and IF_GL_TRI_OFFSET in upd_mask.
    var fbAccess: bool
    var fbScissor: bool
    var triOffset: bool

    constructor (cb: CommandBuffer, s: GlState)
      ensures this.cb == cb && this.s == s && error == 0
    {
      this.cb := cb;
      this.s := s;
      error := 0;
      fbAccess, fbScissor, triOffset := false, false, false;
    }

    method SetError(raised: nat)
      modifies this`error
      ensures error == Sticky(old(error), raised)
      ensures error == if old(error) != 0 then old(error) else raised
    {
      if error == 0 {
        error := raised;
      }
    }

    // The two writes of both the logic operation and the blend switch.
    method WriteLogic(logicOp: bool, blend: bool)
      requires cb.Valid()
      modifies cb`cur, cb.buf
      ensures cb.Valid() && (cb.Enabled() ==> old(cb.Enabled()))
      ensures cb.Enabled() ==> cb.Meaning() == old(cb.Meaning()) + LogicWrites(s.(logicOp := logicOp, blend := blend))
    {
      if logicOp {
        cb.WriteReg(CU_MODE, 0, 2);
      } else {
        cb.WriteReg(CU_BLEND_FUNC, if blend then s.cuBlendFunc else BLEND_OFF, 0xf);
        cb.WriteReg(CU_MODE, 0x100, 2);
      }
    }

    // The cases of ena_enableStatus.

    method SwitchLogicOp(on: bool)
      requires cb.Valid()
      modifies this`s, this`fbAccess, cb`cur, cb.buf
      ensures cb.Valid() && (cb.Enabled() ==> old(cb.Enabled())) && s == Next(old(s), GlCall.Enable(ColorLogicOp, on))
      ensures cb.Enabled() ==> cb.Meaning() == old(cb.Meaning()) + Writes(old(s), GlCall.Enable(ColorLogicOp, on))
      ensures fbAccess == (old(fbAccess) || !Elided(old(s), GlCall.Enable(ColorLogicOp, on)))
    {
      hide Interp;
      if s.logicOp != on || s.forceMode {
        WriteLogic(on, s.blend);
        s := s.(logicOp := on);
        fbAccess := true;
      }
    }

    method SwitchBlend(on: bool)
      requires cb.Valid()
      modifies this`s, this`fbAccess, cb`cur, cb.buf
      ensures cb.Valid() && (cb.Enabled() ==> old(cb.Enabled())) && s == Next(old(s), GlCall.Enable(Blend, on))
      ensures cb.Enabled() ==> cb.Meaning() == old(cb.Meaning()) + Writes(old(s), GlCall.Enable(Blend, on))
      ensures fbAccess == (old(fbAccess) || !Elided(old(s), GlCall.Enable(Blend, on)))
    {
      hide Interp;
      if s.blend != on || s.forceMode {
        WriteLogic(s.logicOp, on);
        s := s.(blend := on);
        fbAccess := true;
      }
    }

    method SwitchDepthTest(on: bool)
      requires cb.Valid()
      modifies this`s, this`fbAccess, cb`cur, cb.buf
      ensures cb.Valid() && (cb.Enabled() ==> old(cb.Enabled())) && s == Next(old(s), GlCall.Enable(DepthTest, on))
      ensures cb.Enabled() ==> cb.Meaning() == old(cb.Meaning()) + Writes(old(s), GlCall.Enable(DepthTest, on))
      ensures fbAccess == (old(fbAccess) || !Elided(old(s), GlCall.Enable(DepthTest, on)))
      ensures !Elided(old(s), GlCall.Enable(DepthTest, on)) ==>
                s.cuDepthTest % 2 == (if on then 1 else 0) && s.cuDepthTest / 2 == old(s.cuDepthTest) / 2
    {
      BitIsSet(s.cuDepthTest, on);
      hide Interp, SetBit0, FactorBits, BlendWord, LogicWrites, EarlyZWrites, CullWrites, Header;
      if s.depthTest != on || s.forceMode {
        var word := SetBit0(s.cuDepthTest, on);
        cb.WriteReg(CU_DEPTH_T, word, 1);
        s := s.(cuDepthTest := word, depthTest := on);
        fbAccess := true;
      }
    }

    method SwitchEarlyDepthTest(on: bool)
      requires cb.Valid()
      modifies this`s, this`fbAccess, cb`cur, cb.buf
      ensures cb.Valid() && (cb.Enabled() ==> old(cb.Enabled())) && s == Next(old(s), GlCall.Enable(EarlyDepthTest, on))
      ensures cb.Enabled() ==> cb.Meaning() == old(cb.Meaning()) + Writes(old(s), GlCall.Enable(EarlyDepthTest, on))
      ensures fbAccess == (old(fbAccess) || !Elided(old(s), GlCall.Enable(EarlyDepthTest, on)))
    {
      hide Interp;
      if s.earlyDepthTest != on || s.forceMode {
        cb.WriteReg(TI_EARLYZ_MODE, if on then 1 else 0, 1);
        cb.WriteReg(FU_EZ_EN, if on then 1 else 0, 1);
        s := s.(earlyDepthTest := on);
        fbAccess := true;
      }
    }

    method SwitchStencilTest(on: bool)
      requires cb.Valid()
      modifies this`s, this`fbAccess, cb`cur, cb.buf
      ensures cb.Valid() && (cb.Enabled() ==> old(cb.Enabled())) && s == Next(old(s), GlCall.Enable(StencilTest, on))
      ensures cb.Enabled() ==> cb.Meaning() == old(cb.Meaning()) + Writes(old(s), GlCall.Enable(StencilTest, on))
      ensures fbAccess == (old(fbAccess) || !Elided(old(s), GlCall.Enable(StencilTest, on)))
      ensures !Elided(old(s), GlCall.Enable(StencilTest, on)) ==>
                s.cuStencilTest % 2 == (if on then 1 else 0) && s.cuStencilTest / 2 == old(s.cuStencilTest) / 2
    {
      BitIsSet(s.cuStencilTest, on);
      hide Interp, SetBit0, FactorBits, BlendWord, LogicWrites, EarlyZWrites, CullWrites, Header;
      if s.stencilTest != on || s.forceMode {
        var word := SetBit0(s.cuStencilTest, on);
        cb.WriteReg(CU_STENCIL_T, word, 1);
        s := s.(cuStencilTest := word, stencilTest := on);
        fbAccess := true;
      }
    }

    method SwitchCullFace(on: bool)
      requires cb.Valid()
      modifies this`s, cb`cur, cb.buf
      ensures cb.Valid() && (cb.Enabled() ==> old(cb.Enabled())) && s == Next(old(s), GlCall.Enable(CullFace, on))
      ensures cb.Enabled() ==> cb.Meaning() == old(cb.Meaning()) + Writes(old(s), GlCall.Enable(CullFace, on))
    {
      hide Interp;
      if s.cull != on || s.forceMode {
        cb.WriteReg(TS_CULLMODE, if on then CullMode(s) else 0, 0xf);
        s := s.(cull := on);
      }
    }

    method SwitchState(cap: StateCap, on: bool)
      modifies this`s, this`fbScissor, this`triOffset
      ensures s == old(s).(switches := old(s).switches.Set(cap, on))
      ensures fbScissor == (old(fbScissor) || (cap == ScissorTest && old(s.switches.scissorTest) != on))
      ensures triOffset == (old(triOffset) || (cap == PolygonOffsetFill && old(s.switches.polygonOffset) != on))
    {
      var switches := SetSwitch(s.switches, cap, on);
      s := s.(switches := switches);
    }

    // CHECK_ASSIGN on the first two switches, plain assignments on the others.
    method SetSwitch(was: StateSwitches, cap: StateCap, on: bool) returns (switches: StateSwitches)
      modifies this`fbScissor, this`triOffset
      ensures switches == was.Set(cap, on)
      ensures fbScissor == (old(fbScissor) || (cap == ScissorTest && was.scissorTest != on))
      ensures triOffset == (old(triOffset) || (cap == PolygonOffsetFill && was.polygonOffset != on))
    {
      switches := was;
      match cap {
        case ScissorTest =>
          if switches.scissorTest != on {
            switches := switches.(scissorTest := on);
            fbScissor := true;
          }
        case PolygonOffsetFill =>
          if switches.polygonOffset != on {
            switches := switches.(polygonOffset := on);
            triOffset := true;
          }
        case AccelerateTriangles =>
          switches := switches.(accelerate := on);
        case DepthStencilCopy =>
          switches := switches.(depthCopy := on);
      }
    }

    method EnableStatus(cap: Cap, on: bool)
      requires cb.Valid()
      modifies this, cb`cur, cb.buf
      ensures cb.Valid() && s == Next(old(s), GlCall.Enable(cap, on))
      ensures cb.Enabled() ==> old(cb.Enabled())
      ensures cb.Enabled() ==> cb.Meaning() == old(cb.Meaning()) + Writes(old(s), GlCall.Enable(cap, on))
      ensures error == Sticky(Sticky(old(error), if cap.Invalid? then GL_INVALID_ENUM else 0), FullError(!cb.Enabled()))
      ensures fbAccess == (old(fbAccess) || (!Elided(old(s), GlCall.Enable(cap, on)) && !cap.CullFace?
                                             && !cap.StateOnly? && !cap.Invalid?))
      ensures fbScissor == (old(fbScissor) || (cap == StateOnly(ScissorTest) && old(s.switches.scissorTest) != on))
      ensures triOffset == (old(triOffset)
                            || (cap == StateOnly(PolygonOffsetFill) && old(s.switches.polygonOffset) != on))
    {
      hide Interp, Next, Writes;
      match cap {
        case ColorLogicOp => SwitchLogicOp(on);
        case Blend => SwitchBlend(on);
        case DepthTest => SwitchDepthTest(on);
        case EarlyDepthTest => SwitchEarlyDepthTest(on);
        case StencilTest => SwitchStencilTest(on);
        case CullFace => SwitchCullFace(on);
        case StateOnly(c) =>
          StateOnlyCap(s, c, on);
          SwitchState(c, on);
        case Invalid =>
          InvalidCap(s, on);
          SetError(GL_INVALID_ENUM);
      }
      if !cb.Enabled() {
        SetError(GL_ERROR_COMMANDBUFFER_FULL_DMP);
      }
    }

    method Enable(cap: Cap)
      requires cb.Valid()
      modifies this, cb`cur, cb.buf
      ensures cb.Valid() && s == Next(old(s), GlCall.Enable(cap, true))
      ensures cb.Enabled() ==> old(cb.Enabled())
      ensures cb.Enabled() ==> cb.Meaning() == old(cb.Meaning()) + Writes(old(s), GlCall.Enable(cap, true))
    {
      EnableStatus(cap, true);
    }

    method Disable(cap: Cap)
      requires cb.Valid()
      modifies this, cb`cur, cb.buf
      ensures cb.Valid() && s == Next(old(s), GlCall.Enable(cap, false))
      ensures cb.Enabled() ==> old(cb.Enabled())
      ensures cb.Enabled() ==> cb.Meaning() == old(cb.Meaning()) + Writes(old(s), GlCall.Enable(cap, false))
    {
      EnableStatus(cap, false);
    }

    method BlendFuncSeparate(f: Factors)
      requires cb.Valid()
      modifies this, cb`cur, cb.buf
      ensures cb.Valid() && s == Next(old(s), GlCall.BlendFuncSeparate(f)) && fbAccess == old(fbAccess)
      ensures cb.Enabled() ==> old(cb.Enabled())
      ensures cb.Enabled() ==> cb.Meaning() == old(cb.Meaning()) + Writes(old(s), GlCall.BlendFuncSeparate(f))
      ensures error == if Elided(old(s), GlCall.BlendFuncSeparate(f)) then old(error)
                       else if !ValidFactors(f) then Sticky(old(error), GL_INVALID_ENUM)
                       else Sticky(old(error), FullError(!cb.Enabled()))
      ensures !Elided(old(s), GlCall.BlendFuncSeparate(f)) && ValidFactors(f) ==>
                FactorsOf(s.cuBlendFunc) == Some(f) && s.cuBlendFunc % 0x1_0000 == old(s.cuBlendFunc) % 0x1_0000
    {
      hide Interp, ValidFactors, BlendWord, Switched, LogicWrites, EarlyZWrites, CullWrites, Header, FactorsOf;
      if s.factors == f && !s.forceMode {
        return;
      }
      if !ValidFactors(f) {
        SetError(GL_INVALID_ENUM);
        return;
      }
      BlendWordReadsBack(s.cuBlendFunc, f);
      s := s.(cuBlendFunc := BlendWord(s.cuBlendFunc, f), factors := f);
      if s.blend && !s.logicOp {
        cb.WriteReg(CU_BLEND_FUNC, s.cuBlendFunc, 0xc);
      } else if s.forceMode {
        cb.WriteReg(CU_BLEND_FUNC, BLEND_OFF, 0xc);
      }
      if !cb.Enabled() {
        SetError(GL_ERROR_COMMANDBUFFER_FULL_DMP);
      }
    }

    method ValidateOthers(v: Viewport)
      requires cb.Valid()
      modifies this`fbAccess, cb`cur, cb.buf
      ensures cb.Valid() && fbAccess
      ensures cb.Enabled() ==> old(cb.Enabled()) && cb.Meaning() == old(cb.Meaning()) + ValidateWrites(s, v)
    {
      hide Interp, ViewportWrites, DepthWrites, EarlyZWrites, ModeWrites, LogicWrites, CullWrites, StencilWrites;
      WriteViewport(v);
      WriteDepth();
      WriteModes();
      WriteLogic(s.logicOp, s.blend);
      assert s.(logicOp := s.logicOp, blend := s.blend) == s;
      WriteCull();
      WriteStencil();
      fbAccess := true;
      Seven(old(if cb.Enabled() then cb.Meaning() else []), ViewportWrites(v), DepthWrites(s), EarlyZWrites(s),
            ModeWrites(s), LogicWrites(s), CullWrites(s), StencilWrites(s));
    }

    // The parts of vldtr_validateOthers.

    method WriteViewport(v: Viewport)
      requires cb.Valid()
      modifies cb`cur, cb.buf
      ensures cb.Valid()
      ensures cb.Enabled() ==> old(cb.Enabled()) && cb.Meaning() == old(cb.Meaning()) + ViewportWrites(v)
    {
      hide Interp;
      cb.WriteReg(TS_WIDTH2, v.width2, 0xf);
      cb.WriteReg(TS_HEIGHT2, v.height2, 0xf);
      if v.sizes.Some? {
        cb.WriteReg(TS_RWIDTH2 + 2 * 0, v.sizes.value.0, 0xf);
        cb.WriteReg(TS_RWIDTH2 + 2 * 1, v.sizes.value.1, 0xf);
      }
      cb.WriteReg(TI_OFFSET, v.offset, 0xf);
    }

    method WriteDepth()
      requires cb.Valid()
      modifies cb`cur, cb.buf
      ensures cb.Valid()
      ensures cb.Enabled() ==> old(cb.Enabled()) && cb.Meaning() == old(cb.Meaning()) + DepthWrites(s) + EarlyZWrites(s)
    {
      hide Interp;
      cb.WriteReg(CU_DEPTH_T, s.cuDepthTest, 3);
      cb.WriteReg(GAS_DELTAZ_DEPTH, s.cuGasDepth, 0x8);
      if s.earlyDepthTest {
        cb.WriteReg(TI_EARLYZ_MODE, 1, 1);
        cb.WriteReg(FU_EZ_EN, 1, 1);
      } else {
        cb.WriteReg(TI_EARLYZ_MODE, 0, 1);
        cb.WriteReg(FU_EZ_EN, 0, 1);
      }
    }

    method WriteModes()
      requires cb.Valid()
      modifies cb`cur, cb.buf
      ensures cb.Valid()
      ensures cb.Enabled() ==> old(cb.Enabled()) && cb.Meaning() == old(cb.Meaning()) + ModeWrites(s)
    {
      hide Interp;
      cb.WriteReg(TI_ZCOMP_MODE, s.tiEarlyDepthFunc, 1);
      cb.WriteReg(EZ_Z_CLEAR_VALUE, s.tiClearEarlyDepth, 0x7);
      cb.WriteReg(CU_LOGIC, s.cuLogicOp, 0xf);
    }

    method WriteCull()
      requires cb.Valid()
      modifies cb`cur, cb.buf
      ensures cb.Valid()
      ensures cb.Enabled() ==> old(cb.Enabled()) && cb.Meaning() == old(cb.Meaning()) + CullWrites(s)
    {
      if s.cull {
        cb.WriteReg(TS_CULLMODE, CullMode(s), 0xf);
      } else {
        cb.WriteReg(TS_CULLMODE, 0, 0xf);
      }
    }

    method WriteStencil()
      requires cb.Valid()
      modifies cb`cur, cb.buf
      ensures cb.Valid()
      ensures cb.Enabled() ==> old(cb.Enabled()) && cb.Meaning() == old(cb.Meaning()) + StencilWrites(s)
    {
      hide Interp;
      cb.WriteReg(FU_MEM_ADRS_MODE, if s.block32 then 1 else 0, 1);
      cb.WriteReg(CU_STENCIL_T, s.cuStencilTest, 0xf);
      cb.WriteReg(CU_STENCIL_OP, s.cuStencilOp, 0xf);
      cb.WriteReg(CU_CONST_RGBA, s.cuBlendColor, 0xf);
    }

    /**
     vldtr_validateOthers and then any run of calls. Unless the buffer fills up, the hardware that reads it ends up,
     whatever its registers were, with registers that hold what the GL state asks for; and a driver that always writes
     everything would have shown it the same. The state has the switches and factors set last, and the registers show
     them; what no call writes stays as the validator has left it.
     */
    method ValidateAndRun(v: Viewport, cs: seq<GlCall>)
      requires cb.Valid() && Consistent(s)
      modifies this, cb`cur, cb.buf
      ensures cb.Valid() && s == EagerNextAll(old(s), cs)
      ensures Consistent(s) && Sets(old(s), cs, s) && Keeps(old(s), s)
      ensures cb.Enabled() ==>
                && old(cb.Enabled())
                && var eager := old(cb.Meaning()) + ValidateWrites(old(s), v) + AllEagerWrites(old(s), cs);
                   forall r :: var q := ApplyAll(r, cb.Meaning());
                               Coherent(s, q) && Shows(s, q) && SameView(s, q, ApplyAll(r, eager))
      ensures cb.Enabled() ==>
                forall r :: var before := ApplyAll(r, old(cb.Meaning()));
                            var start := ApplyAll(before, ValidateWrites(old(s), v));
                            Validated(old(s), v, before, start) && LeavesOthers(start, ApplyAll(r, cb.Meaning()))
    {
      hide Interp, Consistent, Coherent, SameView, Next, Writes, EagerNext, EagerWrites, ValidateWrites, ApplyAll;
      hide Sets, Keeps, Shows, Validated, LeavesOthers;
      ghost var s0, m := s, if cb.Enabled() then cb.Meaning() else [];
      ValidateOthers(v);
      RunAll(cs);
      RunsShareStates(s0, cs);
      RunConsistent(s0, cs);
      RunSets(s0, cs);
      if cb.Enabled() {
        forall r
          ensures Coherent(s, ApplyAll(r, cb.Meaning())) && Shows(s, ApplyAll(r, cb.Meaning()))
          ensures SameView(s, ApplyAll(r, cb.Meaning()),
                           ApplyAll(r, m + ValidateWrites(s0, v) + AllEagerWrites(s0, cs)))
          ensures var done := ApplyAll(ApplyAll(r, m), ValidateWrites(s0, v));
                  Validated(s0, v, ApplyAll(r, m), done) && LeavesOthers(done, ApplyAll(r, cb.Meaning()))
        {
          BufferMeans(m, s0, v, cs, r);
        }
      }
    }

    /** The calls one after the other. */
    method RunAll(cs: seq<GlCall>)
      requires cb.Valid()
      modifies this, cb`cur, cb.buf
      ensures cb.Valid() && s == NextAll(old(s), cs)
      ensures cb.Enabled() ==> old(cb.Enabled()) && cb.Meaning() == old(cb.Meaning()) + AllWrites(old(s), cs)
    {
      hide Interp, Next, Writes;
      ghost var s0, m := s, if cb.Enabled() then cb.Meaning() else [];
      var i := 0;
      assert cs[0..] == cs;
      while i < |cs|
        invariant i <= |cs| && cb.Valid() && (cb.Enabled() ==> old(cb.Enabled()))
        invariant NextAll(s, cs[i..]) == NextAll(s0, cs)
        invariant cb.Enabled() ==> cb.Meaning() + AllWrites(s, cs[i..]) == m + AllWrites(s0, cs)
      {
        assert cs[i..][1..] == cs[i + 1..];
        match cs[i] {
          case Enable(cap, true) => Enable(cap);
          case Enable(cap, false) => Disable(cap);
          case BlendFuncSeparate(f) => BlendFuncSeparate(f);
        }
        i := i + 1;
      }
      assert cs[i..] == [];
    }
  }

  lemma Seven(m: seq<Write>, a: seq<Write>, b: seq<Write>, c: seq<Write>, d: seq<Write>, e: seq<Write>, f: seq<Write>,
              g: seq<Write>)
    ensures m + a + b + c + d + e + f + g == m + (a + b + c + d + e + f + g)
  {
  }

  lemma StateOnlyCap(s: GlState, cap: StateCap, on: bool)
    ensures Next(s, GlCall.Enable(StateOnly(cap), on)) == s.(switches := s.switches.Set(cap, on))
    ensures Writes(s, GlCall.Enable(StateOnly(cap), on)) == []
  {
  }

  lemma InvalidCap(s: GlState, on: bool)
    ensures Next(s, GlCall.Enable(Invalid, on)) == s && Writes(s, GlCall.Enable(Invalid, on)) == []
  {
  }
}