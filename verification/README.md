# UltraWideScreenShare capture core in Dafny

This project models the capture-and-present pipeline of UltraWideScreenShare and proves properties of it. Each tick, the desktop-duplication capture controller polls for a new frame of one monitor. It crops the frame to the region the caller wants and copies the crop into a swap chain, resizing the swap chain only when the crop size changes. Then it presents the swap chain and releases the frame. Failures are recovered by reopening the duplication. The project also models the edge hit-test of the transparent capture panel.

The controller is a pure state machine:

- `Capture.State` holds the controller's fields. Each COM reference is a flag saying whether the field is non-null. A generation counter numbers the duplications created so far. The record also holds the recorded surface size, the monitor bounds and the monitor handle.
- The GPU and DXGI calls that shape the output become `Effect`s in a trace: `Duplicate`, `DuplicateRefused`, `CreateSurface`, `Resize`, `Copy`, `Present`, `Release(gen)` and `Reinit`. An effect records a call that was issued. A traced call that throws still appears, followed by whatever its handler did. `DuplicateRefused` is a `DuplicateOutput` call that threw.
- Each way a call can fail is an input:
  - the `AcquireNextFrame` result code, as a signed 32-bit HRESULT;
  - a `FaultPoint` naming the one presentation call that throws;
  - whether `ReleaseFrame` succeeds;
  - for each reopen, the adapter/output topology and whether `DuplicateOutput` succeeds.
- `ProcessFrame(state, input)` returns the next state, the trace and whether the tick threw. `Run` folds it over a sequence of ticks and would stop at a tick that threw.

Files:

- `rects.dfy` (module `Rects`): System.Drawing's `Rectangle`/`Size` value semantics, `Rectangle.Intersect`, and the copy box.
- `capture.dfy` (module `Capture`): the controller's operations. These are `Start`, `ProcessFrame`, `InitializeDevice`, `InitializeDuplication` with its adapter/output search, `ReinitializeDuplication`, `PresentRegion`, `EnsureSwapChain` and `Dispose`.
- `capture_proofs.dfy` (module `CaptureProofs`): lemmas over traces and over sequences of ticks.
- `hit_test.dfy` (module `HitTest`): the `WM_NCHITTEST` near-edge decision of `HitTransparentPanel`.

Behaviour of the code that the model keeps on purpose:

- When the presentation path throws, the handler reopens the duplication before the `finally` runs. So the `finally` releases the frame on the new duplication (generation `gen + 1`), not on the duplication that delivered it. `PresentFailureReleasesOnNewDuplication` shows the trace.
- If that reopen fails, the duplication field is null. `ReleaseFrame` then throws a NullReferenceException, which is caught, and the handler's reopen returns at once. The trace has no `Release` at all.
- `InitializeDuplication` nulls the field before it searches. So after a failed reopen every later tick does nothing and no reopen is ever attempted again.
- After access lost, the code reopens in the same tick, not on the next one. The model follows the code.

## Model

| member | source | states |
|---|---|---|
| `Rects.Intersect` | UltraWideScreenShare.WinForms/DesktopDuplicationCaptureController.cs:200 | the overlap has non-negative size, and when it is non-degenerate it lies inside both rectangles |
| `Rects.IntersectPointwise` | UltraWideScreenShare.WinForms/DesktopDuplicationCaptureController.cs:200 | a point is in the intersection if and only if it is in both the region and the monitor bounds |
| `Rects.IntersectCovered` | UltraWideScreenShare.WinForms/DesktopDuplicationCaptureController.cs:200 | a region of non-negative size that lies wholly on the monitor is used unchanged |
| `Rects.IntersectCommutes` | UltraWideScreenShare.WinForms/DesktopDuplicationCaptureController.cs:200 | the crop does not depend on the argument order of Intersect |
| `Capture.Clamp` | UltraWideScreenShare.WinForms/DesktopDuplicationCaptureController.cs:231 | the swap-chain size is at least 1x1 and keeps every dimension that is already at least 1 |
| `Capture.Classify` | UltraWideScreenShare.WinForms/DesktopDuplicationCaptureController.cs:62-75 | a frame counts as acquired exactly when the HRESULT is a success code; the timeout and access-lost codes are recognised exactly |
| `Capture.InitializeDevice` | UltraWideScreenShare.WinForms/DesktopDuplicationCaptureController.cs:103-130 | succeeds iff a device already exists or creation succeeds; a fresh success creates device, context and factory; nothing else changes; the invariant is kept |
| `Capture.FindInAdapter` | UltraWideScreenShare.WinForms/DesktopDuplicationCaptureController.cs:151-168 | returns the first output index showing the monitor, or the output count when none does |
| `Capture.FindOutput` | UltraWideScreenShare.WinForms/DesktopDuplicationCaptureController.cs:141-172 | a match shows the monitor and no earlier adapter or output does; no match means no output of any adapter shows it |
| `Capture.InitializeDuplication` | UltraWideScreenShare.WinForms/DesktopDuplicationCaptureController.cs:132-173 | succeeds iff device and factory exist, some output matches and duplication is granted; success binds the first match as generation gen+1; a refusal records one DuplicateRefused call on the first match; failure leaves no duplication |
| `Capture.ReinitializeDuplication` | UltraWideScreenShare.WinForms/DesktopDuplicationCaptureController.cs:175-190 | never throws; without a duplication it does nothing; otherwise one Reinit, and a duplication exists afterwards iff the reopen succeeds |
| `Capture.EnsureSwapChain` | UltraWideScreenShare.WinForms/DesktopDuplicationCaptureController.cs:224-265 | creates the swap chain at the clamped size when absent; resizes iff the clamped size differs from the recorded one; the recorded size equals the clamped target on success; a failed call changes nothing |
| `Capture.ResizeIfChanged` | UltraWideScreenShare.WinForms/DesktopDuplicationCaptureController.cs:206-209 | an unchanged crop size issues no call; a changed one issues exactly one Resize to the crop size |
| `Capture.SourceBox` | UltraWideScreenShare.WinForms/DesktopDuplicationCaptureController.cs:211-215 | the box has the crop's width and height, and a non-degenerate crop on the monitor gives a box inside [0,W]x[0,H] |
| `Capture.PresentRegion` | UltraWideScreenShare.WinForms/DesktopDuplicationCaptureController.cs:192-222 | only the recorded size may change; only Resize, Copy and Present are issued; every Copy reads the crop's box and happens only for a non-degenerate crop; a missing swap chain or context, or a degenerate crop, does nothing |
| `Capture.PresentAcquired` | UltraWideScreenShare.WinForms/DesktopDuplicationCaptureController.cs:77-78 | a failing texture query throws before any call; otherwise this is the presentation path |
| `Capture.FinallyRelease` | UltraWideScreenShare.WinForms/DesktopDuplicationCaptureController.cs:85-99 | with a duplication: one Release of the current generation, then one Reinit if the release throws; with a null field: no effect |
| `Capture.ProcessFrame` | UltraWideScreenShare.WinForms/DesktopDuplicationCaptureController.cs:50-101 | never throws, because neither the catch's reopen nor the finally's release lets an exception escape; a tick missing duplication, context or swap chain, or timing out, changes nothing and issues nothing; device, context, factory, swap chain and monitor are untouched; the invariant is kept |
| `Capture.Run` | UltraWideScreenShare.WinForms/MainWindow.cs:73-77 | no exception escapes the timer handler: a tick that threw would end the run, and since no tick throws the run reaches the last tick |
| `Capture.Start` | UltraWideScreenShare.WinForms/DesktopDuplicationCaptureController.cs:40-48 | records the monitor; success leaves a live controller whose surface is the monitor size clamped to at least 1x1; device failure propagates; the invariant is kept |
| `Capture.Dispose` | UltraWideScreenShare.WinForms/DesktopDuplicationCaptureController.cs:275-288 | releases every resource and keeps the monitor and size bookkeeping |
| `CaptureProofs.AccessLostReopensOnce` | UltraWideScreenShare.WinForms/DesktopDuplicationCaptureController.cs:68-72 | access lost gives exactly one Reinit, with no Release, Resize, Copy or Present; the duplication survives iff the reopen succeeds |
| `CaptureProofs.HardFailureReopensOnce` | UltraWideScreenShare.WinForms/DesktopDuplicationCaptureController.cs:74-84 | any other failure code gives exactly one Reinit, with no Release or Present |
| `CaptureProofs.ReleaseOncePerAcquire` | UltraWideScreenShare.WinForms/DesktopDuplicationCaptureController.cs:74-99 | exactly one Release iff a frame was acquired and a duplication exists at the `finally`; it targets the acquiring generation, or gen+1 after a throw and reopen; otherwise the duplication is gone |
| `CaptureProofs.AcquiredTickReopens` | UltraWideScreenShare.WinForms/DesktopDuplicationCaptureController.cs:80-99 | an acquired tick reopens once for a throwing presentation path and once more for a throwing release |
| `CaptureProofs.DegenerateCropStillReleases` | UltraWideScreenShare.WinForms/DesktopDuplicationCaptureController.cs:199-204 | a crop of width or height at most 0 issues no Resize, Copy or Present, and exactly one Release |
| `CaptureProofs.TryPartOnCrop` | UltraWideScreenShare.WinForms/DesktopDuplicationCaptureController.cs:206-221 | the presentation path resizes only for a changed size, records the crop size unless the resize throws, and without a fault is resize, copy, present |
| `CaptureProofs.ResizeIffSizeChanged` | UltraWideScreenShare.WinForms/DesktopDuplicationCaptureController.cs:206-209 | a tick reaching a crop issues one Resize (first, to the crop size) iff the size changed, else none; afterwards the recorded size is the crop size unless the resize threw |
| `CaptureProofs.NoFaultTickEffects` | UltraWideScreenShare.WinForms/DesktopDuplicationCaptureController.cs:199-221 | a fault-free tick's trace is: optional Resize, then Copy at (0,0) of the translated crop, then Present, then the release part |
| `CaptureProofs.CopyBoxInsideMonitor` | UltraWideScreenShare.WinForms/DesktopDuplicationCaptureController.cs:200-217 | in every tick, whichever call throws, each Copy reads the crop translated by the monitor origin, writes it at (0,0), and reads within [0,W]x[0,H] of the monitor; a fault-free tick that reaches a crop issues that Copy |
| `CaptureProofs.NoFaultTickCounts` | UltraWideScreenShare.WinForms/DesktopDuplicationCaptureController.cs:217-221 | a fault-free tick copies once, presents once and releases once |
| `CaptureProofs.SteadyRegionNoResize` | UltraWideScreenShare.WinForms/DesktopDuplicationCaptureController.cs:206-209 | after a tick that sized the surface, a second tick with the same region issues zero Resize calls |
| `CaptureProofs.StraddlingRegionScenario` | UltraWideScreenShare.WinForms/DesktopDuplicationCaptureController.cs:199-221 | a region straddling the monitor's right edge is cut there: the surface width is the monitor's right edge minus the region's x (monitor (0,0,2560,1440) and region (2400,0,400,400) give 160x400 and box (2400,0)-(2560,400)), then one Copy, Present and Release |
| `CaptureProofs.InsideRegionScenario` | UltraWideScreenShare.WinForms/DesktopDuplicationCaptureController.cs:199-221 | a region lying on the monitor is used unchanged: the surface takes its size and the copy reads it translated by the monitor origin; an identical second tick issues no Resize, one Copy and one Present |
| `CaptureProofs.PresentFailureReleasesOnNewDuplication` | UltraWideScreenShare.WinForms/DesktopDuplicationCaptureController.cs:80-93 | for any crop, when Present throws and the reopen succeeds, the trace is the resize part, Copy, Present, Reinit, Duplicate of the first match as gen+1, and Release(gen+1); the controller ends on duplication gen+1 |
| `CaptureProofs.SearchFindsFirstMatch` | UltraWideScreenShare.WinForms/DesktopDuplicationCaptureController.cs:141-172 | the search returns (a, o) iff (a, o) is the first match in adapter-then-output order |
| `CaptureProofs.SearchFailsWithoutMatch` | UltraWideScreenShare.WinForms/DesktopDuplicationCaptureController.cs:132-172 | the search fails iff no output shows the monitor, and then InitializeDuplication throws and leaves no duplication |
| `CaptureProofs.NoDuplicationNoTicks` | UltraWideScreenShare.WinForms/DesktopDuplicationCaptureController.cs:52-55 | without a duplication, any sequence of ticks issues nothing and changes nothing |
| `CaptureProofs.FailedReopenIsPermanent` | UltraWideScreenShare.WinForms/DesktopDuplicationCaptureController.cs:175-190 | after an access-lost tick whose reopen fails, the duplication is gone and later ticks add nothing, so the whole trace holds exactly one Reinit |
| `CaptureProofs.RunKeepsValid` | UltraWideScreenShare.WinForms/DesktopDuplicationCaptureController.cs:50-101 | any sequence of ticks keeps the invariant, the monitor and the swap chain, and never lowers the generation |
| `CaptureProofs.InitialIsIdle` | UltraWideScreenShare.WinForms/DesktopDuplicationCaptureController.cs:19-38 | the controller as constructed (every reference null, default sizes) satisfies the invariant and is not live, so ticks before Start issue nothing |
| `CaptureProofs.InitializeDeviceIdempotent` | UltraWideScreenShare.WinForms/DesktopDuplicationCaptureController.cs:105-108 | after a successful device initialisation, a second one is a no-op whatever its outcome would be |
| `CaptureProofs.StartBindsAndSizes` | UltraWideScreenShare.WinForms/DesktopDuplicationCaptureController.cs:40-48 | a successful Start leaves a live, valid controller bound to the first matching output, with the clamped monitor size |
| `CaptureProofs.StartWithoutMatchFails` | UltraWideScreenShare.WinForms/DesktopDuplicationCaptureController.cs:46 | with no output showing the monitor, Start fails and every later tick issues nothing |
| `CaptureProofs.DisposeEndsCapture` | UltraWideScreenShare.WinForms/DesktopDuplicationCaptureController.cs:275-288 | Dispose is idempotent, and ticks after it issue nothing |
| `HitTest.NewPanel` | UltraWideScreenShare.WinForms/HitTransparentPanel.cs:11 | a new panel's resize margin is 8 |
| `HitTest.WndProc` | UltraWideScreenShare.WinForms/HitTransparentPanel.cs:13-36 | goes to the base handler iff the message is not WM_NCHITTEST or the point is strictly interior (margin <= x < W-margin and margin <= y < H-margin); otherwise answers HTTRANSPARENT (-1) |
| `HitTest.OtherMessagesPassThrough` | UltraWideScreenShare.WinForms/HitTransparentPanel.cs:18-35 | messages other than WM_NCHITTEST always reach the base handler |
| `HitTest.TransparentIffNearEdge` | UltraWideScreenShare.WinForms/HitTransparentPanel.cs:23-31 | a hit-test answers HTTRANSPARENT iff the point is near some edge, which means exactly not interior |
| `HitTest.OutsideTopLeftIsTransparent` | UltraWideScreenShare.WinForms/HitTransparentPanel.cs:23-31 | with a non-negative margin, points left of or above the panel are transparent |
| `HitTest.WiderMarginOnlyAddsTransparency` | UltraWideScreenShare.WinForms/HitTransparentPanel.cs:21-28 | increasing the margin keeps every transparent answer transparent |
| `HitTest.DefaultMarginIsAsymmetric` | UltraWideScreenShare.WinForms/HitTransparentPanel.cs:11-26 | with margin 8 on 100x100, 7 is near the left/top and 8 is not, while 92 is near the right/bottom and 91 is not |

## Left out

- Direct3D 11 and DXGI work is abstract. This covers feature-level selection, multithread protection, the swap-chain description (format, buffer count, flip model), `MakeWindowAssociation` and `ClearState`. `ClearState` is folded into the `Resize` effect. Pixel contents and vsync timing are also out. These are foreign COM calls, so they appear only as effects and success/failure inputs.
- A failure of `GetBuffer` is folded into the `AtCopy` fault point. The trace then shows a `Copy` that was never reached.
- Only the calls listed as effects are traced. `EnumAdapters1`, `EnumOutputs`, the output description and the `QueryInterface` calls are not traced. They are plain queries. A failing texture query is the `AtTexture` fault point. A failing `IDXGIOutput1` query on the matching output is folded into `DuplicateRefused`.
- The `Dispose` calls on COM wrappers (`frameResource`, adapters, outputs, the old duplication) are not traced. Reference counting is not part of the model.
- `Trace.WriteLine` logging is left out.
- Int32 overflow in rectangle and offset arithmetic is not modelled. Integers are unbounded, and monitor-sized values are far from the limits.
- `_frameLock` is never used. Concurrency with the duplication API's threads is not modelled. Ticks are serialised by the caller.
- `MainWindow.cs` (form lifecycle, timer, DPI padding, transparency toggling, drag clamp, message boxes) is UI plumbing. `Run` stands in for its timer.
- `TitleBarWindow.cs`, the designer files and `MagnifierController.cs` are not part of this model.
- The region provider is a per-tick input. The code calls it only when a frame reaches `PresentRegion`; elsewhere the model ignores the input.
- `HitTest.OutsideTopLeftIsTransparent`: assumes a non-negative margin. `EffectiveResizeMargin` is a settable int, and with a negative margin points just outside the left edge are not transparent.
