/** Whether a fragment is drawn, and the depth it leaves, from the registers' own numbers. */
module PixelTests {
  import opened Wrappers
  import opened Bits
  import opened LocalMemory
  import DepthBuffer

  /** The widest depth of a format: PSMZ32, PSMZ24, PSMZ16 and PSMZ16S. */
  function Widest(zPsm: nat): nat { if zPsm == 0 then 0xFFFF_FFFF else if zPsm == 1 then 0xFF_FFFF else 0xFFFF }

  /** The test's four codes: NEVER, ALWAYS, GEQUAL and GREATER. */
  predicate Drawn(ztst: nat, z: nat, held: nat) {
    ztst == 1 || (ztst == 2 && z >= held) || (ztst == 3 && z > held)
  }

  /** Depth is compared: the test is on, the format is a depth format, and it is not the
      setting that leaves the buffer alone. */
  predicate Compared(r: Registers) { r.zte && r.zPsm in {0, 1, 2, 10} && !(r.ztst == 1 && r.zmsk) }

  lemma NotCompared(r: Registers, fb: Frame, c: Canvas, f: Fragment)
    requires !Compared(r) && FrameLoc(fb, f.x, f.y).word < VM_WORDS
    ensures ZSetupOf(r).None?
    ensures Draw(r, fb, ZSetupOf(r), c, f) == Canvas(ColourWritten(r, fb, c.vm, f), c.pixels + 1)
  {
  }

  lemma Settings(r: Registers)
    requires Compared(r)
    ensures ZSetupOf(r).Some?
    ensures var s := ZSetupOf(r).value;
      && s.ztst == r.ztst && s.write == !r.zmsk && s.zbp == r.zbp && s.fbw == r.fbw
      && s.narrow == (r.zPsm != 0 && r.zPsm != 1) && s.sform == (r.zPsm == 10) && Two(s.width) - 1 == Widest(r.zPsm)
  {
    Places();
  }

  /** A fragment in memory is drawn exactly when its depth, cut to the widest the format has,
      passes the test against the depth held; it then leaves that depth, unless depth writes
      are masked, and otherwise it leaves everything. */
  lemma FragmentDrawnIff(r: Registers, fb: Frame, c: Canvas, f: Fragment)
    requires Compared(r) && r.ztst < 4 && FrameLoc(fb, f.x, f.y).word < VM_WORDS
    requires ZSetupOf(r).Some? && ZLoc(ZSetupOf(r).value, f.x, f.y).word < VM_WORDS
    ensures var (zs, after) := (ZSetupOf(r), Draw(r, fb, ZSetupOf(r), c, f));
      var held := ReadDepth(zs.value, c.vm, f.x, f.y);
      var z := if f.z > Widest(r.zPsm) then Widest(r.zPsm) else f.z;
      && (!Drawn(r.ztst, z, held) ==> after == c)
      && (Drawn(r.ztst, z, held) ==>
           && Survives(zs, c.vm, f)
           && after == Canvas(ColourWritten(r, fb, DepthWritten(zs, c.vm, f), f), c.pixels + 1)
           && (r.zmsk ==> DepthWritten(zs, c.vm, f) == c.vm)
           && (!r.zmsk ==> ReadDepth(zs.value, DepthWritten(zs, c.vm, f), f.x, f.y) == z))
  {
    Settings(r);
    var s := ZSetupOf(r).value;
    var at := ZLoc(s, f.x, f.y);
    DepthBuffer.DepthBack(s, c.vm[at.word], at.high, Clamp(s, f.z));
    hide ZSetupOf, ZLoc, FrameLoc, ColourWritten, DepthIn, WithDepth, Two, Widest;
  }

  /** The frame's formats: PSMCT32, PSMCT24, PSMCT16 and PSMCT16S.  PSMCT24's top byte is
      masked. */
  lemma FrameFormats(r: Registers, i: nat)
    requires i < 32
    ensures FbSetup(r).Some? <==> r.framePsm in {0, 1, 2, 10}
    ensures FbSetup(r).Some? ==>
      var fb := FbSetup(r).value;
      && fb.narrow == (r.framePsm == 2 || r.framePsm == 10) && fb.sform == (r.framePsm == 10)
      && fb.fbp == r.fbp && fb.fbw == r.fbw
      && (fb.mask[i] <==> r.fbmsk[i] || (r.framePsm == 1 && i >= 24))
  {
  }
}
