# A verified model of the console's reference semantics

This project models, in Dafny, the executable reference semantics of a PlayStation 2
re-implementation and the clocked blocks that carry data between its clock domains and
memory, and proves what those pieces are for.

- **Graphics Synthesizer** (`sim/gs/gs_ref.py`). `Swizzle` holds the address maps of the
  eight storage formats, `LocalMemory` one pixel write and one depth test, `Drawing` the
  sprite and triangle loops in a class over the memory array, `Coverage` and `FillRule` the
  pixels they land on, `HalfPlanes` the same by the edges' integer functions, `Dda` the
  interpolator, `Planes` what a triangle's fragments carry, `Blending` and `PixelTests` one
  pixel's colour and depth on the registers' own numbers, `SwizzleBits` the address bits,
  `DepthBuffer` what depth-buffered fragments leave in memory, `Primitives` what any sequence
  of sprites and triangles leaves, `VertexQueue` which vertices a primitive is made from,
  `Gif` the packet parser, `GifDecode` what it makes of each field, and `GifEncoder` the
  encoder of `hw/ps2probe/compare.py`.
- **HBM engines** (`boards/hbm_common.py`). `HbmWriter` and `HbmDiscSource` are the two
  state machines, each a class whose `Tick` is proved equal to a step function;
  `HbmWriterRuns` and `HbmDiscSourceRuns` reason about every run of them, and
  `HbmWriterAborts` about what an abort achieves.
- **Single-precision floats** (`sim/ee/ps2_float.py`, `sim/ee/fpu_ref.py`). `Dyadic` is the
  arithmetic of powers of two, `Ps2Float` packing, `Ps2Ops` the operations and comparisons,
  `Ps2Arithmetic` those operations beside the exact results, `Ps2Sqrt` the bisection.
- **R5900** (`sim/ee/r5900_ref.py`). `Unaligned` covers the unaligned and quadword accesses,
  `Exceptions` delay slots, exceptions and ERET, `ControlFlow` where branches, loops and calls
  go and what the raising instructions compute, `Accumulate` the multiply-accumulate chains.
- **Toggle handshakes** (`boards/c1100_gs.py`, `boards/c1100_ee.py`, `tools/gs/gsrun.py`).
  `ToggleLink` is the synchroniser pair, `GsPush` and `EeMemory` the two protocols with
  their host, under every interleaving of two clocks.
- **Vector unit** (`sim/vu/vu_ref.py`). `Vu` is one word's two slots and their merge,
  `VuOps` the upper slot's arithmetic, `VuSlots` each slot's operands, flags, addresses and
  branches, `VuRuns` the runs.

`Arith`, `Bits` and `Bytes` hold shared facts about quotients, bit lists and byte lists,
`Rounds` how long an interleaving of clocks takes, `HbmAxi` what the two engines' ports
share, `Widths` machine widths and `Wrappers` the optional value.

Conventions. Code that updates state is a class or a method with the source's loops, proved
against a specification function; the theorems are about that function. Coordinates and
floating-point values are exact reals. A 32-bit word of local memory is its list of bits, so
that a shift or a mask is a slice or a choice; a register moved by whole bytes is handled
with shifts and masks by bytes, which `Bytes.Arithmetic` identifies with multiplication,
division and remainder. Clocked blocks are step functions over arbitrary inputs; an AXI peer
is an arbitrary environment, a synchroniser is two flip-flops, and a clock edge is one step.
R5900 and VU instructions arrive decoded. Where a loop or a proof takes a parameter called
`step`, `m` or `item`, it is a name for the function beside it, given a hypothesis that says
so, and the theorems instantiate it with the real one.

Where the obvious claim is false, the exact form is proved instead: the square root misses
exact roots (`Ps2Sqrt.SqrtExactIff`), the depth bias lowers flat depth although the
comment on it says a flat triangle is exact (`Dda.FlatDepthShort`), an address may be
withdrawn by abort (`HbmWriterRuns.AddressHeldIff`), bursts leave a 4 KB page for some
bases (`HbmWriterRuns.PagesIff`), beats land on the base itself only if it is a multiple
of their size (`HbmWriterRuns.AlignedIff`, `HbmDiscSourceRuns.WordsAreConsecutive`),
indexed formats need an even TBW (`Swizzle.WidthIff`), packets of more than sixteen items
or of none do not come back (`GifEncoder.AloneIff`, `GifEncoder.EmptySwallows`), a fan
mixed with XYZ3 loses its hub (`VertexQueue.FanHubIff`), ERET resumes at the faulting
address exactly when it is a sign-extended 32-bit one (`Exceptions.Restart`), a broadcast
instruction that overwrites its own broadcast field is not issued "at once" unless its
arithmetic cannot tell (`VuOps.SafeIff`), and "lower slot last" is not quite the merge's
rule (`Vu.OverlapIff`).

## Model

| member | source | states |
|---|---|---|
| `Ps2Float.Pack` | sim/ee/ps2_float.py:79-116 | both normalisation loops end for every non-zero rational and leave the pattern whose exponent is the operand's binade |
| `Ps2Float.PackTruncates` | sim/ee/ps2_float.py:79-116 | packing never grows the magnitude, keeps the sign, and in range leaves less than one ulp; overflow saturates and underflow flushes, each with its flag |
| `Ps2Float.PackNearest` | sim/ee/ps2_float.py:79-116 | no pattern at all has a magnitude strictly between the result's and the operand's |
| `Ps2Float.PackMonotone` | sim/ee/ps2_float.py:79-116 | packing is monotone over the whole line, through the flush, the zeros and saturation |
| `Ps2Float.PackRoundTrip` | sim/ee/ps2_float.py:51-76 | packing a pattern's value gives the conditioned pattern back, a negative zero excepted unless its sign is passed along |
| `Ps2Float.PackedIsConditioned` | sim/ee/ps2_float.py:51-67 | every packed result is a fixed point of the operand conditioner |
| `Ps2Ops.OneIsIdentity` | sim/ee/ps2_float.py:127-144 | one is the identity of the product and of the quotient, up to the sign of zero |
| `Ps2Ops.ZeroIsIdentity` | sim/ee/ps2_float.py:119-124 | adding or subtracting any zero or denormal returns the conditioned operand |
| `Ps2Ops.ComparesValues` | sim/ee/fpu_ref.py:17-36 | the integer comparisons hold exactly when the exact values compare, for every pair of 32-bit patterns |
| `Ps2Ops.SelectsExtremes` | sim/ee/ps2_float.py:167-185 | the selected operand is one of the two, conditioned, and its value is the true maximum or minimum |
| `Ps2Arithmetic.SumCuts` | sim/ee/ps2_float.py:119-128 | sum, difference and product are the exact ones cut toward zero by less than one ulp, with the largest magnitude and O from 2^128 up and a zero and U below 2^-126 |
| `Ps2Arithmetic.QuotientCuts` | sim/ee/ps2_float.py:131-144 | the quotient times the divisor does not exceed the dividend and one ulp more does; its sign is the product of the signs and its flags follow the same two bounds |
| `Ps2Arithmetic.ZeroDivisor` | sim/ee/ps2_float.py:131-144 | a zero divisor gives 7F7FFFFF or FF7FFFFF by the operands' signs, with I for a zero dividend and D for any other |
| `Ps2Sqrt.SquareRoot` | sim/ee/ps2_float.py:147-164 | the two hundred bisection steps compute the bracket the theorems below are about |
| `Ps2Sqrt.SqrtBelow` | sim/ee/ps2_float.py:147-164 | the square of the result does not exceed the operand's magnitude |
| `Ps2Sqrt.SqrtAbove` | sim/ee/ps2_float.py:147-164 | the square of the next pattern reaches the operand's magnitude |
| `Ps2Sqrt.SqrtFloor` | sim/ee/ps2_float.py:147-164 | the result is the largest pattern whose square does not exceed the operand, or one ulp below an exact root |
| `Ps2Sqrt.SqrtExactIff` | sim/ee/ps2_float.py:147-164 | a representable root is returned exactly when the operand is below one or a power of two other than one; otherwise the result is one ulp low |
| `Ps2Sqrt.RootOfOne` | sim/ee/ps2_float.py:147-164 | the input that shows it: the root of 1.0 comes out one ulp below it |
| `HbmWriter.HBMDMAWriter.Tick` | boards/hbm_common.py:379-482 | one clock edge of the packer and the AW/W/B state machine, field by field |
| `HbmWriterRuns.WrittenIsAPrefix` | boards/hbm_common.py:379-482 | in every run the k-th beat since start is the k-th group of accepted words and, until an address wraps past the port's 33 bits, memory is the old one with the beats laid end to end from the base rounded down to a beat, whatever was left of earlier transfers |
| `HbmWriterRuns.BeatsAreGroups` | boards/hbm_common.py:379-418 | all accepted words but at most one group are in the delivered beats, in order |
| `HbmWriterRuns.LaidAt` | boards/hbm_common.py:462-475 | beats laid from an address are each 32k bytes on from it and nothing else changes |
| `HbmWriterRuns.AlignedIff` | boards/hbm_common.py:420-424 | the k-th beat is at base + 32k exactly when the base is a multiple of 32 |
| `HbmWriterRuns.BurstsComplete` | boards/hbm_common.py:451-482 | from reset on each accepted address is followed by sixteen beats, the last flag on the sixteenth only, then one response, abort or not |
| `HbmWriterRuns.DataHeld` | boards/hbm_common.py:464-475 | in every run a data beat offered and not taken is offered again unchanged, as section A3.2.1 of ARM IHI 0022E asks |
| `HbmWriterRuns.AddressHeldIff` | boards/hbm_common.py:451-462 | in every run an address offered and not taken is offered again exactly when no abort arrives |
| `HbmWriterRuns.PagesIff` | boards/hbm_common.py:420-424 | no burst crosses a 4 KB page, as section A3.4.1 of ARM IHI 0022E asks, exactly when the base is a multiple of a burst's size |
| `HbmWriterRuns.HandshakesDecrease` | boards/hbm_common.py:451-482 | in every run every handshake of a transfer decreases a lexicographic measure and no other edge raises it |
| `HbmWriterRuns.TransferEnds` | boards/hbm_common.py:400-482 | in every run, whatever the stalls, a transfer ends if whatever it waits for (an address handshake, a source word, a data handshake, a response) always comes in the end, and it ends done unless aborted |
| `HbmWriterRuns.AnsweredEnds` | boards/hbm_common.py:400-482 | every environment that watches the engine and never stops answering it is such a one, slaves that respond only when a response is due among them |
| `HbmWriterRuns.PoliteSlave` | boards/hbm_common.py:400-482 | one such slave, which answers every third edge and responds only when asked to |
| `HbmWriterRuns.DoneMeansWritten` | boards/hbm_common.py:451-482 | done implies the length rounded up to whole bursts has been written, in the counter's 32 bits |
| `HbmWriterAborts.AbortTakesNoAddress` | boards/hbm_common.py:441-462 | in every run, after an edge with abort up that leaves the engine out of Idle, no address is taken before it is back in Idle |
| `HbmWriterAborts.AbortStops` | boards/hbm_common.py:441-482 | under the fairness of `TransferEnds` such an engine reaches Idle without done, having written sixteen beats for each address it had taken and no more |
| `HbmWriterAborts.CleanStartFinishes` | boards/hbm_common.py:441-482 | a transfer started with abort low that sees none ends done, whatever was aborted before it |
| `HbmWriterAborts.CountersCount` | boards/hbm_common.py:420-482 | in every run the burst counter is the addresses taken since reset and the response register the last response |
| `HbmDiscSource.HBMDiscSource.Tick` | boards/hbm_common.py:236-315 | one clock edge of the AR/R/EMIT/DRAIN/DONE/WAIT machine, field by field |
| `HbmDiscSourceRuns.DoneMeansDelivered` | boards/hbm_common.py:236-315 | done is pulsed once, after four bursts and exactly 512 strobes at addresses 0 to 511 in order with the sector's words, a throttle and 64 cycles after the last strobe |
| `HbmDiscSourceRuns.PrefixDelivered` | boards/hbm_common.py:255-305 | at every moment the strobes so far are the sector's first words, each at its own address and a throttle apart |
| `HbmDiscSourceRuns.WordsAreConsecutive` | boards/hbm_common.py:247-254 | unless the sector runs off the end of HBM, word w is 2048*lba + 4w bytes on from the base rounded down to a beat, so from the base itself exactly when that is a multiple of 32 |
| `HbmDiscSourceRuns.HeldServesOnce` | boards/hbm_common.py:308-315 | however long a request is held after done, nothing more is read, written or announced |
| `HbmDiscSourceRuns.ServiceAdvances` | boards/hbm_common.py:247-315 | in every run each cycle of a service decreases a lexicographic measure, except those spent waiting on the slave, which change nothing |
| `HbmDiscSourceRuns.ServiceEnds` | boards/hbm_common.py:247-315 | so in every run a service reaches done with its own sector delivered, if the slave always answers in the end |
| `HbmDiscSourceRuns.CountersCount` | boards/hbm_common.py:236-315 | in every run the sector counter goes up once for each service completed, in sixteen bits, and the response register is the last read response taken |
| `HbmDiscSourceRuns.StartsIff` | boards/hbm_common.py:247-254 | an idle edge starts a service, at the sector then asked for, exactly when enable and request are both up |
| `ToggleLink.OneFlip` | boards/c1100_gs.py:383-395 | at most one toggle is in flight, and busy low means none is |
| `ToggleLink.FlipTravels` | boards/c1100_gs.py:383-395 | edges of the right clock move the toggle on and no edge moves it back |
| `GsPush.GSBringup.SysTick` | boards/c1100_gs.py:375-389 | a system-clock edge of the push registers and the data words |
| `GsPush.GSBringup.GsTick` | boards/c1100_gs.py:391-395 | a GS-clock edge: what the GIF takes and when it acknowledges |
| `GsPush.ExactlyOnce` | boards/c1100_gs.py:383-395 | for every interleaving and every stall the GIF accepts exactly the quadwords pushed, in order, once each |
| `GsPush.DataStable` | tools/gs/gsrun.py:85-93 | in every run data offered to the GIF does not change until it is taken |
| `GsPush.BusyFalls` | boards/c1100_gs.py:383-395 | from anywhere in any run, five rounds of both clocks, each with the GIF ready once, see busy go down |
| `EeMemory.EEBringup.EeTick` | boards/c1100_ee.py:262-277 | an EE-clock edge: the write strobe, the registered read, the capture and the acknowledge |
| `EeMemory.EEBringup.SysTick` | boards/c1100_ee.py:246-256 | a system-clock edge of the memory request |
| `EeMemory.OneAccessEach` | boards/c1100_ee.py:246-277 | for every interleaving the far side has started each finished access once, in order, and the current one at most once, and the RAM has been strobed once for each write among them and for nothing else |
| `EeMemory.ResultsRight` | boards/c1100_ee.py:246-277 | each finished access returned what its address held just before it, and between accesses memory is what they made of it |
| `EeMemory.BusyCoversAccess` | boards/c1100_ee.py:246-277 | in every run, when busy is low the awaited access has been started once, its strobe is over, its write is in memory and its data captured |
| `EeMemory.BusyFalls` | boards/c1100_ee.py:246-277 | from anywhere in any run, six rounds of both clocks see busy go down |
| `Swizzle.Bijection` | sim/gs/gs_ref.py:178-365 | for every base, width and unbounded height each address map and its explicit inverse determine each other, with and without the depth exclusive-or |
| `Swizzle.RoundTrip` | sim/gs/gs_ref.py:203-365 | pixel to cell to pixel and cell to pixel to cell are identities |
| `Swizzle.DistinctIff` | sim/gs/gs_ref.py:203-365 | pixels below a column limit have distinct cells exactly when whole pages cover the limit |
| `Swizzle.WidthIff` | sim/gs/gs_ref.py:326-365 | a buffer of TBW units of 64 pixels keeps its pixels apart, except that PSMT8 and PSMT4 need an even TBW |
| `SwizzleBits.WordAddress` | sim/gs/gs_ref.py:178-221 | a 32-bit pixel's word address, each of its low eleven bits a named coordinate bit, with the depth formats' exclusive-or |
| `SwizzleBits.HalfAddress` | sim/gs/gs_ref.py:238-262 | a PSMCT16 or PSMZ16 pixel's word address and half, bit by bit |
| `SwizzleBits.HalfAddressS` | sim/gs/gs_ref.py:238-262 | a PSMCT16S or PSMZ16S pixel's, bit by bit |
| `SwizzleBits.ByteAddress` | sim/gs/gs_ref.py:291-345 | a PSMT8 index's byte address, bit by bit |
| `SwizzleBits.NibbleAddress` | sim/gs/gs_ref.py:300-365 | a PSMT4 index's nibble address, bit by bit |
| `FillRule.TwoCrossings` | sim/gs/gs_ref.py:1478-1492 | every scanline within a triangle is crossed by exactly two edges and no other by any |
| `FillRule.VisitsInside` | sim/gs/gs_ref.py:1425-1495 | the loops visit exactly the scissored pixels whose origin is inside, by the even-odd rule with left and top inclusive |
| `FillRule.OrderFree` | sim/gs/gs_ref.py:1478-1492 | coverage does not depend on the order of the corners |
| `FillRule.NoOverlap` | sim/gs/gs_ref.py:1425-1495 | triangles on opposite sides of an edge share no pixel |
| `FillRule.Seamless` | sim/gs/gs_ref.py:1425-1495 | two such triangles draw every pixel of their quadrilateral exactly once and no other |
| `Dda.AtIsUnits` | sim/gs/gs_ref.py:87-126 | less the bias every value is a whole number of grid units: an integer accumulator stepped once every eight pixels, plus a lane offset |
| `Dda.StaysClose` | sim/gs/gs_ref.py:87-126 | the walk never exceeds the exact line and falls behind by less than i div 8 + 2 grid units |
| `Dda.Monotone` | sim/gs/gs_ref.py:97-126 | the walk is monotone in the gradient's direction, across blocks |
| `Dda.FlatDepthShort` | sim/gs/gs_ref.py:65-84 | a flat depth is drawn one low everywhere but at zero |
| `Planes.DepthOnPlane` | sim/gs/gs_ref.py:145-160 | every fragment's depth is, to within the interpolator's grid, the value there of any affine function through the three vertices' depths, bias included, floored and saturated |
| `Planes.ChannelOnPlane` | sim/gs/gs_ref.py:1499-1513 | and under Gouraud shading so is each of the four colour channels, in its own byte |
| `Planes.FlatColour` | sim/gs/gs_ref.py:1499-1513 | flat shading gives every fragment the last vertex's colour |
| `Planes.PlaneExists` | sim/gs/gs_ref.py:145-160 | a triangle that is not flat has such an affine function for any three values |
| `Drawing.GS.ZCheck` | sim/gs/gs_ref.py:1227-1282 | the depth test and the write that goes with it, on the memory array |
| `Drawing.GS.PutPixel` | sim/gs/gs_ref.py:1202-1225 | one blended, masked pixel write, on the memory array |
| `PixelTests.FragmentDrawnIff` | sim/gs/gs_ref.py:1227-1282 | a fragment is drawn exactly when its depth, cut to the format's widest, passes the test's code against the depth held, and then leaves that depth unless the write is masked |
| `PixelTests.NotCompared` | sim/gs/gs_ref.py:1124-1151 | with the test off, with ALWAYS and the write masked, or with another format it is drawn and leaves depth alone |
| `PixelTests.FrameFormats` | sim/gs/gs_ref.py:1163-1186 | which formats can be drawn to, which of them are 16-bit, and which mask bits each has |
| `Blending.WideBlends` | sim/gs/gs_ref.py:1080-1122 | an unmasked 32-bit pixel's colour bytes are D plus the 128th part of (A - B) times C rounded down, cut to a byte or taken modulo 256 by COLCLAMP, each operand spelled out by its selector; alpha is the source's |
| `Blending.MixExists` | sim/gs/gs_ref.py:1080-1122 | every source and destination byte has such a result under every setting |
| `Blending.WideCopies` | sim/gs/gs_ref.py:1094-1095 | with blending off it is the source |
| `Blending.OrdinaryMix` | sim/gs/gs_ref.py:1080-1122 | in the mix (Cs - Cd) * C + Cd a factor of 128 leaves the source, one of 0 the destination, and any between lies between them |
| `Blending.WideMask` | sim/gs/gs_ref.py:1202-1210 | each mask bit keeps its bit and each clear one lets it through |
| `Blending.NarrowBlends` | sim/gs/gs_ref.py:1202-1225 | a 16-bit pixel blends eight times its five-bit colours with an alpha of 0 or 128 and keeps the eighths; the other half of the word stays |
| `Blending.NarrowCopies` | sim/gs/gs_ref.py:1202-1225 | with blending off it is the source's eighths and top alpha bit |
| `Blending.NarrowMask` | sim/gs/gs_ref.py:1214-1221 | the 32-bit mask's bits keep the bits that conversion takes them to |
| `Drawing.GS.DrawSprite` | sim/gs/gs_ref.py:1544-1666 | the two loops draw the rectangle's fragments in raster order; a textured sprite is counted and refused |
| `Drawing.GS.DrawTriangle` | sim/gs/gs_ref.py:1370-1542 | the two loops draw one fragment, with its interpolated depth and colour, for each pixel visited, in raster order |
| `Coverage.SpriteCovers` | sim/gs/gs_ref.py:1590-1666 | a sprite's fragments are its clipped rectangle, each pixel once |
| `Coverage.SpriteRectangle` | sim/gs/gs_ref.py:1588-1666 | in sixteenths: a pixel of the scissor is drawn exactly when its far edges are past the nearer corner, less the offset, and not past the farther one |
| `Coverage.TriangleCovers` | sim/gs/gs_ref.py:1478-1542 | a triangle's fragments are the pixels of the fill rule, each once |
| `HalfPlanes.InteriorDrawn` | sim/gs/gs_ref.py:1370-1495 | every pixel of the scissor where the three vertices' integer edge functions have one strict sign is drawn, whichever way round they are |
| `HalfPlanes.ExteriorSpared` | sim/gs/gs_ref.py:1370-1495 | and no fragment is outside the scissor or strictly on the wrong side of an edge |
| `Coverage.SharedEdge` | sim/gs/gs_ref.py:1370-1542 | two triangles that share an edge, their corners in any order, have exactly one fragment between them on each pixel of the quadrilateral and none elsewhere |
| `Primitives.SharedEdgeDrawn` | sim/gs/gs_ref.py:1370-1542 | drawing such triangles one after the other draws exactly those fragments |
| `Primitives.ScissorKeepsInside` | sim/gs/gs_ref.py:1594-1598 | a scissor no wider than the buffer keeps every fragment of a primitive inside it |
| `Primitives.OneDrawn` | sim/gs/gs_ref.py:1646-1666 | drawing a sprite or triangle does to each pixel it covers what its fragment there does, and nothing to any other |
| `Primitives.DepthAfter` | sim/gs/gs_ref.py:1227-1282 | after any sequence of sprites and triangles a pixel's depth is the greatest of what it held and of the clamped depths of the primitives covering it (GEQUAL or GREATER) |
| `Primitives.DepthReordered` | sim/gs/gs_ref.py:1227-1282 | the same depth comes of drawing them in any other order |
| `Primitives.ColourAfter` | sim/gs/gs_ref.py:1202-1282 | unblended, a pixel shows under the mask the earliest primitive to reach a nearer final depth (GREATER) or the latest to reach it (GEQUAL), and its old colour if there is none |
| `Primitives.IndicesSurvive` | sim/gs/gs_ref.py:414-434 | palette indices in the spare bytes of a PSMCT24 frame survive any sequence of primitives |
| `Primitives.DrawnTogether` | sim/gs/gs_ref.py:1646-1666 | drawing primitives in turn is drawing their fragments as one list |
| `DepthBuffer.LocsApart` | sim/gs/gs_ref.py:203-262 | two pixels of a buffer never share a word, or a half when the format is 16-bit |
| `DepthBuffer.OneFragment` | sim/gs/gs_ref.py:1188-1282 | a fragment changes the depth and colour of its own pixel only, the other half of its words included |
| `DepthBuffer.Refines` | sim/gs/gs_ref.py:1202-1282 | after any fragments the swizzled memory holds, at each pixel, what that pixel's own fragments alone would have left |
| `DepthBuffer.FinalDepth` | sim/gs/gs_ref.py:1227-1282 | with GEQUAL or GREATER a pixel's depth ends as the greatest of what it held and of every clamped depth drawn there |
| `DepthBuffer.DepthOrderFree` | sim/gs/gs_ref.py:1227-1282 | that depth does not depend on drawing order |
| `DepthBuffer.FinalColour` | sim/gs/gs_ref.py:1202-1282 | an unblended pixel's colour, under the mask, is that of the earliest fragment to reach a nearer final depth (GREATER) or of the latest to reach it (GEQUAL), one of which exists unless the colour is untouched |
| `DepthBuffer.Keeps` | sim/gs/gs_ref.py:1163-1225 | drawing never leaves the frame and depth pages, and a PSMCT24 frame keeps every word's top byte |
| `DepthBuffer.IndexSurvives` | sim/gs/gs_ref.py:414-434 | palette indices of PSMT8H, PSMT4HL and PSMT4HH survive any drawing to a PSMCT24 frame |
| `DepthBuffer.SpareByte` | sim/gs/gs_ref.py:1276-1281 | PSMZ24 keeps the byte above its depth field |
| `VertexQueue.Queue.Add` | sim/gs/gs_ref.py:1289-1313 | one vertex: the queue after it and what it draws |
| `VertexQueue.FanHubIff` | sim/gs/gs_ref.py:1305-1311 | a fan's triangle keeps the hub exactly when it is the first or the vertex before it kicked |
| `VertexQueue.StripDraws` | sim/gs/gs_ref.py:1305-1311 | a strip draws each kicked vertex with the two before it, XYZ3 vertices among them or not |
| `VertexQueue.StripAndFanWait` | sim/gs/gs_ref.py:1289-1313 | neither draws at a vertex that does not kick or before the third |
| `VertexQueue.ListDraws` | sim/gs/gs_ref.py:1305-1308 | a list draws a kicked vertex with the two before it exactly when two were waiting since it last drew |
| `VertexQueue.SpriteDraws` | sim/gs/gs_ref.py:1302-1304 | a sprite likewise with one |
| `VertexQueue.EveryThird` | sim/gs/gs_ref.py:1305-1308 | when every vertex kicks a list draws at every third |
| `VertexQueue.EverySecond` | sim/gs/gs_ref.py:1302-1304 | and a sprite at every second, a point never |
| `VertexQueue.PointQueue` | sim/gs/gs_ref.py:1313-1314 | the queue nothing empties is cut to the newest two at nine |
| `Gif.Parser.GifPacket` | sim/gs/gs_ref.py:1704-1753 | the tag loop, with its three data loops, does what the specification says and stops where it says |
| `Gif.PacketEnd` | sim/gs/gs_ref.py:1704-1753 | a packet advances past at least its tag and never beyond the list |
| `Gif.Consumes` | sim/gs/gs_ref.py:1722-1749 | a complete tag takes nloop*nreg, half of that rounded up, nloop or no quadwords, by mode |
| `GifDecode.TagFields` | sim/gs/gs_ref.py:1704-1718 | the tag's fields by their bit places, NREG 0 meaning sixteen |
| `GifDecode.PackedDecodes` | sim/gs/gs_ref.py:1704-1782 | PACKED data anywhere in a list, complete or cut short, logs PRE's write and then each quadword's register write, the registers taken in turn, each built from the fields at its own bit places, and parsing goes on or stops behind it |
| `GifDecode.ItemExists` | sim/gs/gs_ref.py:1755-1782 | every quadword has such content for each of the sixteen registers |
| `GifDecode.RegListDecodes` | sim/gs/gs_ref.py:1727-1740 | REGLIST data logs its doublewords, the low half of each quadword first |
| `GifDecode.ImageDecodes` | sim/gs/gs_ref.py:1741-1748 | IMAGE data goes to HWREG doubleword by doubleword, low first, and PRE is ignored |
| `GifDecode.DisabledDecodes` | sim/gs/gs_ref.py:1749-1753 | FLG 3 transfers nothing |
| `GifEncoder.Ad` | hw/ps2probe/compare.py:31-43 | the encoder's loops build the packet specified |
| `GifEncoder.PacketPerforms` | hw/ps2probe/compare.py:31-43 | anywhere in a stream a packet's first NREG items are performed in order and the parser stops behind them |
| `GifEncoder.RoundTrip` | hw/ps2probe/compare.py:105-110 | any stream of packets of one to sixteen items comes back as exactly its writes, in order |
| `GifEncoder.EncodeAndParse` | hw/ps2probe/compare.py:31-43 | the encoder's loops followed by the parser's do that |
| `GifEncoder.AloneIff` | hw/ps2probe/compare.py:35-43 | one packet by itself comes back exactly when it has at most sixteen items |
| `GifEncoder.EmptySwallows` | hw/ps2probe/compare.py:35-43 | an empty packet takes up to sixteen following quadwords and writes PRIM from each |
| `Unaligned.R5900.LoadUnaligned` | sim/ee/r5900_ref.py:861-899 | LWL, LWR, LDL and LDR on the registers |
| `Unaligned.R5900.StoreUnaligned` | sim/ee/r5900_ref.py:876-910 | SWL, SWR, SDL and SDR on memory |
| `Unaligned.LoadPair` | sim/ee/r5900_ref.py:861-899 | LWR imm(rs) then LWL imm+3(rs), or LDR then LDL imm+7(rs), into any register but rs, is the unaligned load and touches nothing else |
| `Unaligned.StorePair` | sim/ee/r5900_ref.py:861-910 | SWR imm(rs) then SWL imm+3(rs), or SDR then SDL imm+7(rs), writes exactly the register's bytes at the address |
| `Unaligned.QuadRoundTrip` | sim/ee/r5900_ref.py:709-723 | SQ then LQ, anywhere in a quadword, brings the register's 128 bits back |
| `Unaligned.SecondAddress` | sim/ee/r5900_ref.py:870-871 | the pair's second instruction reaches the address it needs, the first having left the base register alone |
| `Unaligned.Realign` | sim/ee/r5900_ref.py:252-259 | LQ 0(rs), LQ 15(rs), MTSAB rs with immediate 0 and QFSRV give the sixteen bytes at the address in rs |
| `Unaligned.MtsabBits` | sim/ee/r5900_ref.py:1067-1069 | MTSAB's shift amount is the exclusive-or of four bits, one by one |
| `Unaligned.ExtendedReads` | sim/ee/r5900_ref.py:861-899 | a loaded word reaches the register as the signed number its 32 bits are, and a doubleword as it is |
| `Bytes.Arithmetic` | sim/ee/r5900_ref.py:873-908 | shifts and masks by whole bytes, as lists of bytes have them, are multiplication, division and remainder by powers of 256 |
| `Exceptions.R5900.StepOne` | sim/ee/r5900_ref.py:543-561 | one instruction and the branch pending behind it |
| `Exceptions.R5900.AddInstr` | sim/ee/r5900_ref.py:1088-1100 | the overflowing sums decide for themselves, rd being written only when they do not raise |
| `Exceptions.R5900.TrapInstr` | sim/ee/r5900_ref.py:1137-1152 | and so do the conditional traps |
| `Exceptions.R5900.Exception` | sim/ee/r5900_ref.py:563-594 | entry to the handler: EPC, Cause, EXL, the vector |
| `Exceptions.PreciseRuns` | sim/ee/r5900_ref.py:563-594 | in every run the exceptions taken are the instructions that raised, and each left every register, HI/LO, SA and memory alone |
| `Exceptions.HardwiredAlways` | sim/ee/r5900_ref.py:519-541 | register 0 and PRId never change in any run |
| `Exceptions.FirstException` | sim/ee/r5900_ref.py:563-594 | EPC names the instruction, or the branch before a delay slot, and Cause says which and why |
| `Exceptions.Restart` | sim/ee/r5900_ref.py:563-610 | EPC and Cause survive whatever a handler does but ERET and writes to them or Status, nested exceptions included, and ERET resumes there |
| `Exceptions.BranchOwnsSlot` | sim/ee/r5900_ref.py:543-561 | over runs with no branch in a delay slot, a fault in a slot resumes at the taken branch just before it |
| `ControlFlow.BranchTarget` | sim/ee/r5900_ref.py:612-660 | a taken branch runs its slot and goes on at the slot's own address plus four times the offset, modulo 2^64 |
| `ControlFlow.BranchNotTaken` | sim/ee/r5900_ref.py:612-660 | one not taken falls through, a likely one past its slot |
| `ControlFlow.JumpTarget` | sim/ee/r5900_ref.py:631-635 | a jump runs its slot and goes on at its target |
| `ControlFlow.BranchInSlot` | sim/ee/r5900_ref.py:543-561 | of two taken branches in a row, one instruction runs at the first's target and the second's follows |
| `ControlFlow.BranchLinks` | sim/ee/r5900_ref.py:612-660 | a linking branch leaves the address behind its slot in register 31, taken or not |
| `ControlFlow.JumpLinks` | sim/ee/r5900_ref.py:631-635 | and a jump in its own link register |
| `ControlFlow.StraightLine` | sim/ee/r5900_ref.py:543-561 | instructions that neither raise nor transfer advance the PC by four each |
| `ControlFlow.LoopCloses` | sim/ee/r5900_ref.py:612-660 | a body of n such instructions, a taken branch with offset -(n + 1) and its slot come back to the body's first |
| `ControlFlow.CallReturns` | sim/ee/r5900_ref.py:631-635 | a linking jump, a routine that spares the link register and a jump through it end behind the call's slot |
| `ControlFlow.SumExact` | sim/ee/r5900_ref.py:1088-1100 | ADD, SUB and their kin give the exact signed result when it fits the width and otherwise raise overflow and write nothing |
| `ControlFlow.TrapsWhen` | sim/ee/r5900_ref.py:1137-1152 | each trap's test on the registers' signed or unsigned numbers |
| `ControlFlow.CodesAndVectors` | sim/ee/r5900_ref.py:563-594 | each exception's code and vector, as numbers |
| `ControlFlow.OnlyItsOwn` | sim/ee/r5900_ref.py:543-561 | each instruction's one effect, and that registers, HI/LO, SA, memory and COP0 change for their own instructions only |
| `ControlFlow.ReturnsThrough` | sim/ee/r5900_ref.py:596-610 | ERET goes through ErrorEPC with ERL set and through EPC otherwise, clearing the one it used |
| `ControlFlow.Cop0RoundTrip` | sim/ee/r5900_ref.py:732-741 | what MTC0 writes MFC0 brings back as a signed 32-bit number, PRId excepted |
| `Accumulate.PMultW` | sim/ee/r5900_ref.py:424-447 | each lane's product, whole and split |
| `Accumulate.PMaddUW` | sim/ee/r5900_ref.py:822-839 | each lane's accumulator plus the product, modulo 2^64 |
| `Accumulate.Chain` | sim/ee/r5900_ref.py:822-839 | PMULTUW and any number of PMADDUW leave the sum of all products modulo 2^64 in each lane and in rd |
| `Accumulate.Hmac` | sim/ee/r5900_ref.py:352-398 | the halfword group: which product goes to which word, in all five forms |
| `Accumulate.HalfChain` | sim/ee/r5900_ref.py:352-398 | PMULTH and any mixture of PMADDH and PMSUBH leave eight signed sums modulo 2^32 |
| `Accumulate.FormsCompute` | sim/ee/r5900_ref.py:352-398 | each form's word from the signed halfwords themselves, pairs included |
| `Accumulate.WordPlaces` | sim/ee/r5900_ref.py:352-398 | where the eight products go in LO and HI |
| `Accumulate.WordProducts` | sim/ee/r5900_ref.py:424-447 | the word forms multiply words 0 and 2, read as signed or unsigned |
| `Accumulate.SplitSigned` | sim/ee/r5900_ref.py:424-447 | a lane's two halves are the product's words, each sign-extended |
| `Vu.RunArith` | sim/vu/vu_ref.py:374-420 | the loop over fields, in place, with its flags |
| `Vu.LoopExact` | sim/vu/vu_ref.py:374-420 | what the loop gives every field: its value from the old registers, except that fields after an overwritten broadcast field see the new one |
| `Vu.NoHazardAtOnce` | sim/vu/vu_ref.py:374-420 | without that hazard every operand is as if read before anything is written |
| `Vu.AtOnceIff` | sim/vu/vu_ref.py:374-420 | with it, whether a result is as if read first comes down to the late fields' values |
| `VuOps.SafeIff` | sim/vu/vu_ref.py:374-408 | for ADD, SUB, MUL, MADD, MSUB, MAX and MINI, each with its own condition on the operands: a form behaves on all registers as if every operand were read first exactly when it has no hazard its arithmetic can tell |
| `VuOps.OpsCut` | sim/vu/vu_ref.py:374-397 | each operation of a field beside its exact result, cut once, or twice for MADD and MSUB, with the flags of either cut |
| `VuSlots.UpperComputes` | sim/vu/vu_ref.py:309-320 | without the hazard a selected field is the operation of the first operand's field, the second operand by its source, and ACC's field, in ACC or the register written |
| `VuSlots.MacShows` | sim/vu/vu_ref.py:279-297 | a flag-setting instruction's MAC field shows that result's sign, zero, underflow and overflow, and other fields keep theirs |
| `VuSlots.FormFlags` | sim/vu/vu_ref.py:405-413 | MAX and MINI leave MAC alone |
| `VuSlots.OuterComputes` | sim/vu/vu_ref.py:347-357 | the outer product's three fields, by fields |
| `Vu.MergeInPlace` | sim/vu/vu_ref.py:757-769 | the merge loops |
| `Vu.SameCycle` | sim/vu/vu_ref.py:736-769 | with disjoint writes each field, VI, ACC, Q and I is what its own slot computes from the registers before the word, and memory changes only where it stores what those registers held |
| `Vu.OverlapIff` | sim/vu/vu_ref.py:752-769 | when both slots write a field the lower's value shows exactly when it is a change or the upper's is not |
| `VuSlots.LoadReaches` | sim/vu/vu_ref.py:546-564 | a load's fields come from the base register's address, before an increment or after a decrement, modulo memory's size, and the base moves in sixteen bits |
| `VuSlots.StoreReaches` | sim/vu/vu_ref.py:566-579 | a store's fields go there and nothing else in memory changes |
| `VuSlots.PushPop` | sim/vu/vu_ref.py:546-579 | what a pre-decrement store pushes a post-increment load pops, the base register back where it was |
| `VuSlots.IntegerWrites` | sim/vu/vu_ref.py:537-544 | an integer result is kept in sixteen bits and vi00 takes none |
| `VuSlots.IntegerLoads` | sim/vu/vu_ref.py:582-589 | an integer load keeps the last selected field's low half |
| `VuSlots.QuotientAndImmediate` | sim/vu/vu_ref.py:621-634 | the divider writes Q alone, and with the I bit the lower word goes to I alone |
| `VuRuns.Interpreter.StepWord` | sim/vu/vu_ref.py:722-788 | one word: snapshot, both slots, merge, branch slot and countdown |
| `VuSlots.BranchThenTarget` | sim/vu/vu_ref.py:775-785 | the word behind a taken branch issues and the target follows, a link register holding the byte address behind that word |
| `VuSlots.NoBranchNext` | sim/vu/vu_ref.py:775-785 | otherwise the next word follows |
| `VuSlots.FetchWraps` | sim/vu/vu_ref.py:731 | the word issued is the one the PC names, and the PC wraps at the end of the program |
| `VuRuns.RunKeeps` | sim/vu/vu_ref.py:133-154 | in every run vf00 and vi00 stay fixed, VI stays 16 bits wide, and no field's flags show overflow with underflow or zero, or underflow without zero |
| `VuRuns.ProgramEnds` | sim/vu/vu_ref.py:731-732 | after the word with the E bit exactly two more issue and then nothing changes |
| `VuRuns.Run` | sim/vu/vu_ref.py:790-808 | the count returned: the E bit's word and two more, or the limit |
| `VuRuns.RunProgram` | sim/vu/vu_ref.py:790-808 | that for a program run from an address |

## Left out

- Input and output: PCIe, CSR access by name, PNG files, clock measurement, build scripts and pin tables.
- The RTL, migen's FIFOs, the AXI clock crossing and the vendor blocks, which are not part of this model; AXI peers are arbitrary environments.
- Texture sampling, the CLUT, mipmaps, dithering, the PCRTC and local-to-host transfers, and textured triangles with them.
- Register decoding and drawing side effects of GIF writes: the parser's result is the list of writes it performs.
- Depth buffers overlapping the frame, and pixels outside the buffer's width, which alias by `Swizzle.DistinctIff`: no claim is made about their final depth.
- ZTE = 0 drawing beyond what the code does with it: no depth test and no depth write.
- `Unaligned.LoadPair`, `Unaligned.StorePair` and `Unaligned.Realign` are about units inside the byte array; the instructions themselves are modelled past its end too, where the source's slices are cut short and grow.
- `Drawing.GS.DrawTriangle`: textured triangles are not drawn, texture sampling being left out.
- `Exceptions.Step`: data results of instructions that cannot raise, branch or reach COP0 are parameters, and so are branch conditions, which adds no restriction to the theorems.
- `Vu.Upper`: the arithmetic of each operation is a parameter, which `VuOps` supplies for the seven operations with broadcast forms; ABS, the conversions and the outer product stay parameters, and CLIP's flag and the status register are not modelled.
- The GS read handshake: its request flips on every write of the address, with nothing to hold it back while one is out, and its answer takes any time, so it is not the guarded toggle proved for the push and for EE memory and nothing is claimed of it.
- The privileged-write handshake, and the status snapshots, which carry values for display only.
- `Unaligned.R5900` and `Exceptions.R5900` are two views of the one interpreter class, each with the fields its instructions touch; no theorem joins them.
- Reset in the middle of a push, host timeouts, and `drain`.
- `sqrt_` sets flags that the theorems about its value do not mention; the flags are in the function.
- `EeMemory` takes the memory as a registered port of one access per edge, as the comment beside the code describes it.
- Last-bit agreement of the floating-point unit with silicon, which the code does not decide.
