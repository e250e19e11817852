/**
  The desktop-duplication capture controller as a pure state machine.

  Every GPU or DXGI call is abstracted to an Effect appended to a trace, and
  every way such a call can fail is an input. An effect records a call that was
  ISSUED: a call that throws still appears in the trace, followed by whatever
  the exception handler did.
 */
module Capture {
  import opened Rects

  /** An opaque monitor handle (HMONITOR). */
  type Handle = int

  /** A 32-bit HRESULT reinterpreted as a signed int, as `unchecked((int)…)` does. */
  function SignedHResult(bits: nat): int
    requires bits < 0x1_0000_0000
  {
    if bits < 0x8000_0000 then bits else bits - 0x1_0000_0000
  }

  /** DXGI_ERROR_WAIT_TIMEOUT: no new frame arrived within the (zero) wait. */
  const WaitTimeout: int := SignedHResult(0x887A_0027)
  /** DXGI_ERROR_ACCESS_LOST: the OS revoked the duplication. */
  const AccessLost: int := SignedHResult(0x887A_0026)

  /** What AcquireNextFrame's result code means to the frame pump. */
  datatype Acquire = TimedOut | Lost | Failed | Acquired

  /** The errors that setup calls raise. */
  datatype Error =
    | DeviceCreationFailed   // D3D11CreateDevice failed at every feature level
    | FactoryCreationFailed  // CreateDXGIFactory2 failed after the device was made
    | DeviceNotInitialized   // duplication requested without device or factory
    | NoMatchingOutput       // no adapter output shows the requested monitor
    | DuplicateOutputFailed  // the matching output refused duplication
    | SurfaceCallFailed      // CreateSwapChainForHwnd or ResizeBuffers threw
    | FrameCallFailed        // a call on the acquired frame or the back buffer threw

  datatype Outcome = Ok | Err(error: Error)

  /** The observable calls the controller makes. */
  datatype Effect =
    | Duplicate(adapter: nat, output: nat, gen: nat)  // DuplicateOutput on the matching output; gen numbers the new duplication
    | DuplicateRefused(adapter: nat, output: nat)     // DuplicateOutput on the matching output, which threw
    | CreateSurface(size: Size)                       // CreateSwapChainForHwnd
    | Resize(size: Size)                              // ClearState + ResizeBuffers
    | Copy(dstX: int, dstY: int, src: Box)            // CopySubresourceRegion into the back buffer
    | Present                                         // Present(1, None)
    | Release(gen: nat)                               // ReleaseFrame on duplication number gen
    | Reinit                                          // a reopen attempt by ReinitializeDuplication

  /**
    The controller's fields. A `bool` says whether the corresponding COM
    reference is non-null; `gen` counts the duplications created so far, so the
    live duplication (when present) is number `gen`.
   */
  datatype State = State(
    device: bool,
    context: bool,
    factory: bool,
    duplication: bool,
    gen: nat,
    swapChain: bool,
    surface: Size,
    monitor: Rect,
    monitorHandle: Handle)

  /** The result of one operation: the new state, the calls issued, and whether it threw. */
  datatype Step = Step(state: State, effects: seq<Effect>, outcome: Outcome)

  /** How device creation goes: both succeed, the device fails, or the factory fails after the device. */
  datatype DeviceInit = DeviceReady | DeviceFails | FactoryFails

  /**
    The display topology seen by one duplication search: for each adapter in
    enumeration order, the monitor handles of its outputs in enumeration order;
    plus whether DuplicateOutput on the matching output succeeds.
   */
  datatype Displays = Displays(adapters: seq<seq<Handle>>, duplicable: bool)

  /** Inputs of Start beyond the monitor: device creation, topology, swap-chain call success. */
  datatype StartInput = StartInput(deviceInit: DeviceInit, displays: Displays, surfaceOk: bool)

  /** The single call of the presentation path that throws this tick, if any. */
  datatype FaultPoint =
    | NoFault
    | AtTexture  // QueryInterface of the frame as a texture
    | AtResize   // ResizeBuffers
    | AtCopy     // GetBuffer or CopySubresourceRegion
    | AtPresent  // Present

  /**
    The inputs of one tick: the AcquireNextFrame result code, the region the
    caller wants, where the presentation path throws, whether ReleaseFrame
    succeeds, and the topology seen by the reopen in the exception handler and
    by the reopen after a failed release.
   */
  datatype TickInput = TickInput(
    code: int,
    region: Rect,
    fault: FaultPoint,
    releaseOk: bool,
    reopen: Displays,
    releaseReopen: Displays)

  /** Position of the first matching output, in adapter-then-output order. */
  datatype Match = NoMatch | MatchAt(adapter: nat, output: nat)

  /** The controller as constructed: every reference null, default sizes. */
  const Initial: State := State(false, false, false, false, 0, false, Size(0, 0), Empty, 0)

  /** The frame pump works only when duplication, context and swap chain all exist. */
  predicate Live(s: State) {
    s.duplication && s.context && s.swapChain
  }

  /**
    The invariant the controller keeps: the context exists exactly when the device does, a
    duplication or swap chain needs device and factory, and a swap chain's
    recorded size is at least 1x1.
   */
  predicate Valid(s: State) {
    && (s.context <==> s.device)
    && (s.duplication ==> s.device && s.factory)
    && (s.swapChain ==> s.device && s.factory && s.surface.width >= 1 && s.surface.height >= 1)
  }

  /** The surface size the swap chain is given for a requested size: at least 1 in each dimension. */
  function Clamp(z: Size): (r: Size)
    ensures r.width >= 1 && r.height >= 1
    ensures z.width >= 1 ==> r.width == z.width
    ensures z.height >= 1 ==> r.height == z.height
    ensures z.width < 1 ==> r.width == 1
    ensures z.height < 1 ==> r.height == 1
  {
    Size(Max(1, z.width), Max(1, z.height))
  }

  /** Lines 63-75: the status check on AcquireNextFrame's result code. */
  function Classify(code: int): (r: Acquire)
    ensures r == Acquired <==> code >= 0
    ensures r == TimedOut <==> code == WaitTimeout
    ensures r == Lost <==> code == AccessLost
  {
    if code == WaitTimeout then TimedOut
    else if code == AccessLost then Lost
    else if code < 0 then Failed  // CheckError throws on any failure HRESULT
    else Acquired
  }

  // ---------------------------------------------------------------------------
  // Device

  /** InitializeDevice: creates device, context and factory once; a second call does nothing. */
  function InitializeDevice(s: State, init: DeviceInit): (r: Step)
    ensures r.effects == []
    ensures r.outcome.Ok? <==> s.device || init == DeviceReady
    ensures !s.device && r.outcome.Ok? ==> r.state.device && r.state.context && r.state.factory
    ensures r.state.duplication == s.duplication && r.state.swapChain == s.swapChain
    ensures r.state.gen == s.gen && r.state.surface == s.surface
    ensures r.state.monitor == s.monitor && r.state.monitorHandle == s.monitorHandle
    ensures Valid(s) ==> Valid(r.state)
  {
    if s.device then Step(s, [], Ok)
    else match init
      case DeviceFails => Step(s, [], Err(DeviceCreationFailed))
      case FactoryFails => Step(s.(device := true, context := true), [], Err(FactoryCreationFailed))
      case DeviceReady => Step(s.(device := true, context := true, factory := true), [], Ok)
  }

  // ---------------------------------------------------------------------------
  // Duplication search

  /** The output loop of one adapter: index of the first output at or after `from` showing `h`, or |outputs|. */
  function FindInAdapter(outputs: seq<Handle>, h: Handle, from: nat): (r: nat)
    requires from <= |outputs|
    ensures from <= r <= |outputs|
    ensures r < |outputs| ==> outputs[r] == h
    ensures forall o :: from <= o < r ==> outputs[o] != h
    decreases |outputs| - from
  {
    if from == |outputs| then from
    else if outputs[from] == h then from
    else FindInAdapter(outputs, h, from + 1)
  }

  /**
    The adapter loop: the first (adapter, output) at or after adapter `from`
    whose monitor handle is `h`; enumeration ends where the sequence ends.
   */
  function FindOutput(adapters: seq<seq<Handle>>, h: Handle, from: nat): (r: Match)
    requires from <= |adapters|
    ensures r.MatchAt? ==>
              from <= r.adapter < |adapters| && r.output < |adapters[r.adapter]|
              && adapters[r.adapter][r.output] == h
    ensures r.MatchAt? ==> forall o :: 0 <= o < r.output ==> adapters[r.adapter][o] != h
    ensures r.MatchAt? ==>
              forall a, o :: from <= a < r.adapter && 0 <= o < |adapters[a]| ==> adapters[a][o] != h
    ensures r.NoMatch? ==>
              forall a, o :: from <= a < |adapters| && 0 <= o < |adapters[a]| ==> adapters[a][o] != h
    decreases |adapters| - from
  {
    if from == |adapters| then NoMatch
    else
      var o := FindInAdapter(adapters[from], h, 0);
      if o < |adapters[from]| then MatchAt(from, o)
      else FindOutput(adapters, h, from + 1)
  }

  /** (a1, o1) is enumerated before (a2, o2). */
  predicate Precedes(a1: nat, o1: nat, a2: nat, o2: nat) {
    a1 < a2 || (a1 == a2 && o1 < o2)
  }

  /** Reference definition of the search: (a, o) shows `h` and no earlier output does. */
  predicate IsFirstMatch(adapters: seq<seq<Handle>>, h: Handle, a: nat, o: nat) {
    && a < |adapters| && o < |adapters[a]| && adapters[a][o] == h
    && forall a', o' :: 0 <= a' < |adapters| && 0 <= o' < |adapters[a']| && Precedes(a', o', a, o) ==>
         adapters[a'][o'] != h
  }

  /** Some output of some adapter shows `h`. */
  predicate Shows(adapters: seq<seq<Handle>>, h: Handle) {
    exists a, o :: 0 <= a < |adapters| && 0 <= o < |adapters[a]| && adapters[a][o] == h
  }

  /**
    InitializeDuplication: drop the current duplication, then bind the first
    output showing `h`. Any failure throws and leaves the duplication absent.
   */
  function InitializeDuplication(s: State, h: Handle, d: Displays): (r: Step)
    ensures r.outcome.Ok? <==> r.state.duplication
    ensures r.outcome.Ok? <==>
              s.device && s.factory && FindOutput(d.adapters, h, 0).MatchAt? && d.duplicable
    ensures r.outcome.Ok? ==> r.state.gen == s.gen + 1
    ensures r.outcome.Err? ==> r.state.gen == s.gen
    ensures r.outcome.Ok? ==>
              exists a, o :: IsFirstMatch(d.adapters, h, a, o) && r.effects == [Duplicate(a, o, s.gen + 1)]
    ensures !(s.device && s.factory && FindOutput(d.adapters, h, 0).MatchAt?) ==> r.effects == []
    ensures s.device && s.factory && !d.duplicable ==>
              forall a, o :: IsFirstMatch(d.adapters, h, a, o) ==> r.effects == [DuplicateRefused(a, o)]
    ensures r.state == s.(duplication := r.state.duplication, gen := r.state.gen)
    ensures Valid(s) ==> Valid(r.state)
  {
    var s0 := s.(duplication := false);  // DisposeDuplication
    if !s0.device || !s0.factory then Step(s0, [], Err(DeviceNotInitialized))
    else match FindOutput(d.adapters, h, 0)
      case NoMatch => Step(s0, [], Err(NoMatchingOutput))
      case MatchAt(a, o) =>
        assert IsFirstMatch(d.adapters, h, a, o);
        if d.duplicable then Step(s0.(duplication := true, gen := s.gen + 1), [Duplicate(a, o, s.gen + 1)], Ok)
        else Step(s0, [DuplicateRefused(a, o)], Err(DuplicateOutputFailed))
  }

  /** A reopen of the session's monitor would succeed against topology `d`. */
  predicate ReopenSucceeds(s: State, d: Displays) {
    s.device && s.factory && FindOutput(d.adapters, s.monitorHandle, 0).MatchAt? && d.duplicable
  }

  /**
    ReinitializeDuplication: does nothing once the duplication is gone;
    otherwise reopens the session's monitor and swallows any failure.
   */
  function ReinitializeDuplication(s: State, d: Displays): (r: Step)
    ensures r.outcome == Ok
    ensures !s.duplication ==> r.state == s && r.effects == []
    ensures s.duplication ==> |r.effects| >= 1 && r.effects[0] == Reinit
    ensures s.duplication ==> (r.state.duplication <==> ReopenSucceeds(s, d))
    ensures s.duplication && ReopenSucceeds(s, d) ==> r.state.gen == s.gen + 1
    ensures r.state == s.(duplication := r.state.duplication, gen := r.state.gen)
    ensures forall i :: 0 <= i < |r.effects| ==>
              r.effects[i].Reinit? || r.effects[i].Duplicate? || r.effects[i].DuplicateRefused?
    ensures |r.effects| <= 2
    ensures Valid(s) ==> Valid(r.state)
  {
    if !s.duplication then Step(s, [], Ok)
    else
      var i := InitializeDuplication(s, s.monitorHandle, d);
      Step(i.state, [Reinit] + i.effects, Ok)
  }

  // ---------------------------------------------------------------------------
  // Presentation surface

  /**
    EnsureSwapChain: creates the swap chain at the clamped size, or resizes it
    only when the clamped size differs from the recorded one. Without device
    and factory it does nothing.
   */
  function EnsureSwapChain(s: State, target: Size, ok: bool): (r: Step)
    ensures !(s.device && s.factory) ==> r == Step(s, [], Ok)
    ensures s.device && s.factory && r.outcome.Ok? ==> r.state.swapChain && r.state.surface == Clamp(target)
    ensures r.outcome.Err? ==> r.state == s
    ensures r.outcome.Err? <==> !ok && s.device && s.factory && (!s.swapChain || s.surface != Clamp(target))
    ensures (exists z :: Resize(z) in r.effects) <==> s.device && s.factory && s.swapChain && s.surface != Clamp(target)
    ensures s.device && s.factory && s.swapChain && s.surface != Clamp(target) ==> r.effects == [Resize(Clamp(target))]
    ensures s.device && s.factory && !s.swapChain ==> r.effects == [CreateSurface(Clamp(target))]
    ensures s.swapChain ==> r.state.swapChain
    ensures r.state == s.(swapChain := r.state.swapChain, surface := r.state.surface)
    ensures Valid(s) ==> Valid(r.state)
  {
    if !s.device || !s.factory then Step(s, [], Ok)
    else
      var t := Clamp(target);
      if !s.swapChain then
        if ok then Step(s.(swapChain := true, surface := t), [CreateSurface(t)], Ok)
        else Step(s, [CreateSurface(t)], Err(SurfaceCallFailed))
      else if s.surface != t then
        if ok then Step(s.(surface := t), [Resize(t)], Ok)
        else Step(s, [Resize(t)], Err(SurfaceCallFailed))
      else Step(s.(surface := t), [], Ok)
  }

  /**
    Lines 206-209: the swap chain is touched only when the crop size differs
    from the recorded surface size.
   */
  function ResizeIfChanged(s: State, size: Size, ok: bool): (r: Step)
    requires size.width >= 1 && size.height >= 1
    ensures s.surface == size ==> r == Step(s, [], Ok)
    ensures s.device && s.factory && s.swapChain && s.surface != size ==> r.effects == [Resize(size)]
    ensures s.device && s.factory && r.outcome.Ok? ==> r.state.surface == size
    ensures s.device && s.factory && s.swapChain && s.surface != size ==> (r.outcome.Ok? <==> ok)
    ensures r.state == s.(swapChain := r.state.swapChain, surface := r.state.surface)
    ensures s.swapChain ==> r.state.swapChain
    ensures Valid(s) ==> Valid(r.state)
  {
    assert Clamp(size) == size;
    if s.surface != size then EnsureSwapChain(s, size, ok) else Step(s, [], Ok)
  }

  /** The copy source box: the crop translated into monitor-local coordinates. */
  function SourceBox(crop: Rect, monitor: Rect): (b: Box)
    ensures b.right - b.left == crop.width && b.bottom - b.top == crop.height
    ensures crop.width > 0 && crop.height > 0
            && monitor.x <= crop.x && crop.x + crop.width <= monitor.x + monitor.width
            && monitor.y <= crop.y && crop.y + crop.height <= monitor.y + monitor.height ==>
              0 <= b.left < b.right <= monitor.width && 0 <= b.top < b.bottom <= monitor.height
  {
    var offsetX := crop.x - monitor.x;
    var offsetY := crop.y - monitor.y;
    Box(offsetX, offsetY, offsetX + crop.width, offsetY + crop.height)
  }

  /**
    PresentRegion: crop the caller's region to the monitor, resize the surface
    if the crop size changed, copy the crop to the back buffer's origin and
    present. A degenerate crop does nothing. `fault` names the call that throws.
   */
  function PresentRegion(s: State, region: Rect, fault: FaultPoint): (r: Step)
    ensures r.state == s.(surface := r.state.surface)
    ensures forall i :: 0 <= i < |r.effects| ==>
              r.effects[i].Resize? || r.effects[i].Copy? || r.effects[i].Present?
    ensures !s.swapChain || !s.context || Intersect(region, s.monitor).IsDegenerate() ==>
              r == Step(s, [], Ok)
    ensures forall e :: e in r.effects && e.Copy? ==>
              && !Intersect(region, s.monitor).IsDegenerate()
              && e == Copy(0, 0, SourceBox(Intersect(region, s.monitor), s.monitor))
    ensures Valid(s) ==> Valid(r.state)
  {
    if !s.swapChain || !s.context then Step(s, [], Ok)
    else
      var crop := Intersect(region, s.monitor);
      if crop.width <= 0 || crop.height <= 0 then Step(s, [], Ok)
      else
        var e := ResizeIfChanged(s, Size(crop.width, crop.height), fault != AtResize);
        if e.outcome.Err? then Step(e.state, e.effects, Err(SurfaceCallFailed))
        else
          var copy := Copy(0, 0, SourceBox(crop, s.monitor));
          if fault == AtCopy then Step(e.state, e.effects + [copy], Err(FrameCallFailed))
          else if fault == AtPresent then Step(e.state, e.effects + [copy, Present], Err(FrameCallFailed))
          else Step(e.state, e.effects + [copy, Present], Ok)
  }

  // ---------------------------------------------------------------------------
  // Frame pump

  /** The body of the `try` after a frame was acquired: texture query, then PresentRegion. */
  function PresentAcquired(s: State, region: Rect, fault: FaultPoint): (r: Step)
    ensures r.state == s.(surface := r.state.surface)
    ensures fault == AtTexture ==> r.effects == [] && r.outcome.Err?
    ensures forall i :: 0 <= i < |r.effects| ==>
              r.effects[i].Resize? || r.effects[i].Copy? || r.effects[i].Present?
    ensures forall e :: e in r.effects && e.Copy? ==>
              && !Intersect(region, s.monitor).IsDegenerate()
              && e == Copy(0, 0, SourceBox(Intersect(region, s.monitor), s.monitor))
    ensures Valid(s) ==> Valid(r.state)
  {
    if fault == AtTexture then Step(s, [], Err(FrameCallFailed))
    else PresentRegion(s, region, fault)
  }

  /**
    The `finally` after an acquired frame: ReleaseFrame on whatever duplication
    the field holds now. On a null field the call throws, and the handler's
    reopen returns at once; a throwing release triggers one reopen.
   */
  function FinallyRelease(s: State, ok: bool, d: Displays): (r: Step)
    ensures r.outcome == Ok
    ensures s.duplication ==> |r.effects| >= 1 && r.effects[0] == Release(s.gen)
    ensures s.duplication && ok ==> r == Step(s, [Release(s.gen)], Ok)
    ensures s.duplication && !ok ==> |r.effects| >= 2 && r.effects[1] == Reinit
    ensures !s.duplication ==> r == Step(s, [], Ok)
    ensures r.state == s.(duplication := r.state.duplication, gen := r.state.gen)
    ensures Valid(s) ==> Valid(r.state)
  {
    if !s.duplication then ReinitializeDuplication(s, d)  // NullReferenceException, caught; the reopen returns early
    else if ok then Step(s, [Release(s.gen)], Ok)
    else
      var re := ReinitializeDuplication(s, d);
      Step(re.state, [Release(s.gen)] + re.effects, Ok)
  }

  /**
    ProcessFrame: one tick of the frame pump. An exception that escaped the
    `catch` or the `finally` would propagate (the `finally`'s replacing the
    `catch`'s); neither part lets one escape, so the tick never throws.
   */
  function ProcessFrame(s: State, inp: TickInput): (r: Step)
    ensures r.outcome == Ok
    ensures !Live(s) ==> r.state == s && r.effects == []
    ensures Live(s) && Classify(inp.code) == TimedOut ==> r.state == s && r.effects == []
    ensures r.state.device == s.device && r.state.context == s.context && r.state.factory == s.factory
    ensures r.state.swapChain == s.swapChain && r.state.monitor == s.monitor
    ensures r.state.monitorHandle == s.monitorHandle && r.state.gen >= s.gen
    ensures !s.duplication ==> !r.state.duplication
    ensures Valid(s) ==> Valid(r.state)
  {
    if !Live(s) then Step(s, [], Ok)
    else match Classify(inp.code)
      case TimedOut => Step(s, [], Ok)
      case Lost => ReinitializeDuplication(s, inp.reopen)
      case Failed => ReinitializeDuplication(s, inp.reopen)  // CheckError threw; the catch reopens
      case Acquired =>
        var p := PresentAcquired(s, inp.region, inp.fault);
        var c := if p.outcome.Err? then ReinitializeDuplication(p.state, inp.reopen) else Step(p.state, [], Ok);
        var f := FinallyRelease(c.state, inp.releaseOk, inp.releaseReopen);
        Step(f.state, p.effects + c.effects + f.effects, if f.outcome.Err? then f.outcome else c.outcome)
  }

  /**
    The timer: a sequence of ticks, traces concatenated in order. A tick that
    threw would end the run there, its exception escaping the timer handler.
   */
  function Run(s: State, ins: seq<TickInput>): (r: Step)
    ensures r.outcome == Ok
    decreases |ins|
  {
    if ins == [] then Step(s, [], Ok)
    else
      var h := ProcessFrame(s, ins[0]);
      if h.outcome.Err? then h
      else
        var t := Run(h.state, ins[1..]);
        Step(t.state, h.effects + t.effects, t.outcome)
  }

  // ---------------------------------------------------------------------------
  // Lifecycle

  /**
    Start: record monitor handle and bounds, create the device, bind the
    duplication, and size the surface to the whole monitor. The first failure
    propagates; what was set up before it stays.
   */
  function Start(s: State, h: Handle, bounds: Rect, inp: StartInput): (r: Step)
    ensures r.state.monitor == bounds && r.state.monitorHandle == h
    ensures r.outcome.Ok? ==> r.state.device && r.state.factory && r.state.duplication && r.state.swapChain
    ensures Valid(s) && r.outcome.Ok? ==> Live(r.state)
    ensures r.outcome.Ok? ==> r.state.surface == Clamp(bounds.Dimensions())
    ensures !s.device && inp.deviceInit == DeviceFails ==> r.outcome == Err(DeviceCreationFailed) && !r.state.device
    ensures Valid(s) ==> Valid(r.state)
  {
    var s0 := s.(monitorHandle := h, monitor := bounds);
    var dev := InitializeDevice(s0, inp.deviceInit);
    if dev.outcome.Err? then dev
    else
      var dup := InitializeDuplication(dev.state, h, inp.displays);
      if dup.outcome.Err? then Step(dup.state, dup.effects, dup.outcome)
      else
        var sc := EnsureSwapChain(dup.state, bounds.Dimensions(), inp.surfaceOk);
        Step(sc.state, dup.effects + sc.effects, sc.outcome)
  }

  /** Dispose: release every resource; the monitor and size bookkeeping stay. */
  function Dispose(s: State): (r: State)
    ensures !Live(r) && Valid(r)
    ensures !r.device && !r.context && !r.factory && !r.duplication && !r.swapChain
    ensures r.gen == s.gen && r.surface == s.surface && r.monitor == s.monitor && r.monitorHandle == s.monitorHandle
  {
    s.(duplication := false, swapChain := false, context := false, device := false, factory := false)
  }
}
