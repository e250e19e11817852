/**
  Properties of the frame pump stated over the effect traces of the Capture
  state machine: what each kind of tick issues, how often frames are released
  and the surface resized, where the copy reads from, how the duplication
  search picks its output, and what a failed reopen does to all later ticks.
 */
module CaptureProofs {
  import opened Rects
  import opened Capture

  // ---------------------------------------------------------------------------
  // Counting effects in a trace

  predicate IsRelease(e: Effect) { e.Release? }
  predicate IsReinit(e: Effect) { e.Reinit? }
  predicate IsResize(e: Effect) { e.Resize? }
  predicate IsCopy(e: Effect) { e.Copy? }
  predicate IsPresent(e: Effect) { e.Present? }

  /** Number of effects in `t` satisfying `p`. */
  function Count(t: seq<Effect>, p: Effect -> bool): (n: nat)
    ensures n <= |t|
    ensures n == 0 <==> forall i :: 0 <= i < |t| ==> !p(t[i])
  {
    if t == [] then 0
    else
      assert forall i :: 1 <= i < |t| ==> t[i] == t[1..][i - 1];
      (if p(t[0]) then 1 else 0) + Count(t[1..], p)
  }

  lemma {:induction false} CountAppend(a: seq<Effect>, b: seq<Effect>, p: Effect -> bool)
    ensures Count(a + b, p) == Count(a, p) + Count(b, p)
    decreases |a|
  {
    if a == [] {
      assert a + b == b;
    } else {
      assert (a + b)[1..] == a[1..] + b;
      CountAppend(a[1..], b, p);
    }
  }

  lemma CountAppend3(a: seq<Effect>, b: seq<Effect>, c: seq<Effect>, p: Effect -> bool)
    ensures Count(a + b + c, p) == Count(a, p) + Count(b, p) + Count(c, p)
  {
    CountAppend(a + b, c, p);
    CountAppend(a, b, p);
  }

  // ---------------------------------------------------------------------------
  // The parts of an acquired tick

  /** The `catch` part: a reopen when the `try` part threw. */
  function CatchPart(s: State, inp: TickInput): Step {
    var p := PresentAcquired(s, inp.region, inp.fault);
    if p.outcome.Err? then ReinitializeDuplication(p.state, inp.reopen) else Step(p.state, [], Ok)
  }

  /** The duplication the `finally` part sees still exists. */
  predicate Survives(s: State, inp: TickInput) {
    PresentAcquired(s, inp.region, inp.fault).outcome.Ok? || ReopenSucceeds(s, inp.reopen)
  }

  lemma AcquiredTickShape(s: State, inp: TickInput)
    requires Live(s) && Classify(inp.code) == Acquired
    ensures var c := CatchPart(s, inp);
            ProcessFrame(s, inp).effects
              == PresentAcquired(s, inp.region, inp.fault).effects + c.effects + FinallyRelease(c.state, inp.releaseOk, inp.releaseReopen).effects
    ensures CatchPart(s, inp).state.duplication <==> Survives(s, inp)
    ensures PresentAcquired(s, inp.region, inp.fault).outcome.Ok? ==> CatchPart(s, inp).state.gen == s.gen
    ensures PresentAcquired(s, inp.region, inp.fault).outcome.Err? && ReopenSucceeds(s, inp.reopen) ==> CatchPart(s, inp).state.gen == s.gen + 1
  {
    var p := PresentAcquired(s, inp.region, inp.fault);
    assert ReopenSucceeds(p.state, inp.reopen) == ReopenSucceeds(s, inp.reopen);
  }

  lemma TryPartCounts(s: State, inp: TickInput)
    ensures Count(PresentAcquired(s, inp.region, inp.fault).effects, IsRelease) == 0
    ensures Count(PresentAcquired(s, inp.region, inp.fault).effects, IsReinit) == 0
  {
    var t := PresentAcquired(s, inp.region, inp.fault).effects;
    assert forall i :: 0 <= i < |t| ==> !IsRelease(t[i]) && !IsReinit(t[i]);
  }

  lemma ReinitializeCounts(s: State, d: Displays)
    ensures Count(ReinitializeDuplication(s, d).effects, IsRelease) == 0
    ensures Count(ReinitializeDuplication(s, d).effects, IsReinit) == (if s.duplication then 1 else 0)
    ensures Count(ReinitializeDuplication(s, d).effects, IsResize) == 0
    ensures Count(ReinitializeDuplication(s, d).effects, IsCopy) == 0
    ensures Count(ReinitializeDuplication(s, d).effects, IsPresent) == 0
  {
    var t := ReinitializeDuplication(s, d).effects;
    if s.duplication {
      assert t == [Reinit] + t[1..];
      assert forall i :: 0 <= i < |t[1..]| ==> t[1..][i] == t[i + 1];
      CountAppend([Reinit], t[1..], IsReinit);
    }
  }

  lemma FinallyCounts(s: State, ok: bool, d: Displays)
    ensures Count(FinallyRelease(s, ok, d).effects, IsRelease) == (if s.duplication then 1 else 0)
    ensures Count(FinallyRelease(s, ok, d).effects, IsReinit) == (if s.duplication && !ok then 1 else 0)
    ensures Count(FinallyRelease(s, ok, d).effects, IsResize) == 0
    ensures Count(FinallyRelease(s, ok, d).effects, IsCopy) == 0
    ensures Count(FinallyRelease(s, ok, d).effects, IsPresent) == 0
  {
    if s.duplication && !ok {
      var re := ReinitializeDuplication(s, d);
      ReinitializeCounts(s, d);
      assert FinallyRelease(s, ok, d).effects == [Release(s.gen)] + re.effects;
      CountAppend([Release(s.gen)], re.effects, IsRelease);
      CountAppend([Release(s.gen)], re.effects, IsReinit);
      CountAppend([Release(s.gen)], re.effects, IsResize);
      CountAppend([Release(s.gen)], re.effects, IsCopy);
      CountAppend([Release(s.gen)], re.effects, IsPresent);
    }
  }

  lemma CatchCounts(s: State, inp: TickInput)
    ensures Count(CatchPart(s, inp).effects, IsRelease) == 0
    ensures Count(CatchPart(s, inp).effects, IsReinit) == (if PresentAcquired(s, inp.region, inp.fault).outcome.Err? && s.duplication then 1 else 0)
    ensures Count(CatchPart(s, inp).effects, IsResize) == 0
    ensures Count(CatchPart(s, inp).effects, IsCopy) == 0
    ensures Count(CatchPart(s, inp).effects, IsPresent) == 0
  {
    var p := PresentAcquired(s, inp.region, inp.fault);
    if p.outcome.Err? {
      ReinitializeCounts(p.state, inp.reopen);
    }
  }

  // ---------------------------------------------------------------------------
  // One tick

  /** Lines 68-72 and 89: access lost means one reopen attempt, no release, nothing drawn. */
  lemma AccessLostReopensOnce(s: State, inp: TickInput)
    requires Live(s) && inp.code == AccessLost
    ensures var t := ProcessFrame(s, inp).effects;
            Count(t, IsReinit) == 1 && Count(t, IsRelease) == 0
            && Count(t, IsResize) == 0 && Count(t, IsCopy) == 0 && Count(t, IsPresent) == 0
    ensures ProcessFrame(s, inp).state.duplication <==> ReopenSucceeds(s, inp.reopen)
  {
    ReinitializeCounts(s, inp.reopen);
  }

  /** A hard acquisition failure goes down the same reopen path as access lost. */
  lemma HardFailureReopensOnce(s: State, inp: TickInput)
    requires Live(s) && Classify(inp.code) == Failed
    ensures inp.code < 0 && inp.code != WaitTimeout && inp.code != AccessLost
    ensures var t := ProcessFrame(s, inp).effects;
            Count(t, IsReinit) == 1 && Count(t, IsRelease) == 0 && Count(t, IsPresent) == 0
  {
    ReinitializeCounts(s, inp.reopen);
  }

  /**
    Lines 74-99: a frame is released exactly when it was acquired and the
    duplication field is non-null at the `finally`; that is, unless the
    presentation path threw and its reopen failed. After a throw with a
    successful reopen, the release goes to the NEW duplication.
   */
  lemma ReleaseOncePerAcquire(s: State, inp: TickInput)
    requires Live(s)
    ensures var t := ProcessFrame(s, inp).effects;
            Count(t, IsRelease) == (if Classify(inp.code) == Acquired && Survives(s, inp) then 1 else 0)
    ensures Classify(inp.code) == Acquired && PresentAcquired(s, inp.region, inp.fault).outcome.Ok? ==>
              Release(s.gen) in ProcessFrame(s, inp).effects
    ensures Classify(inp.code) == Acquired && PresentAcquired(s, inp.region, inp.fault).outcome.Err?
            && ReopenSucceeds(s, inp.reopen) ==>
              Release(s.gen + 1) in ProcessFrame(s, inp).effects
    ensures Classify(inp.code) == Acquired && !Survives(s, inp) ==> !ProcessFrame(s, inp).state.duplication
  {
    if Classify(inp.code) == Acquired {
      AcquiredReleaseCount(s, inp);
      if Survives(s, inp) {
        AcquiredReleaseTarget(s, inp);
      }
    } else if Classify(inp.code) != TimedOut {
      ReinitializeCounts(s, inp.reopen);
    }
  }

  /** An acquired tick releases once when the duplication survives the `catch`, else never. */
  lemma AcquiredReleaseCount(s: State, inp: TickInput)
    requires Live(s) && Classify(inp.code) == Acquired
    ensures Count(ProcessFrame(s, inp).effects, IsRelease) == (if Survives(s, inp) then 1 else 0)
    ensures !Survives(s, inp) ==> !ProcessFrame(s, inp).state.duplication
  {
    var c := CatchPart(s, inp);
    var f := FinallyRelease(c.state, inp.releaseOk, inp.releaseReopen);
    AcquiredTickShape(s, inp);
    TryPartCounts(s, inp);
    CatchCounts(s, inp);
    FinallyCounts(c.state, inp.releaseOk, inp.releaseReopen);
    CountAppend3(PresentAcquired(s, inp.region, inp.fault).effects, c.effects, f.effects, IsRelease);
  }

  /** The release of an acquired tick targets the duplication the `catch` left in the field. */
  lemma AcquiredReleaseTarget(s: State, inp: TickInput)
    requires Live(s) && Classify(inp.code) == Acquired && Survives(s, inp)
    ensures Release(CatchPart(s, inp).state.gen) in ProcessFrame(s, inp).effects
    ensures PresentAcquired(s, inp.region, inp.fault).outcome.Ok? ==> CatchPart(s, inp).state.gen == s.gen
    ensures PresentAcquired(s, inp.region, inp.fault).outcome.Err? ==> CatchPart(s, inp).state.gen == s.gen + 1
  {
    var p := PresentAcquired(s, inp.region, inp.fault);
    var c := CatchPart(s, inp);
    var f := FinallyRelease(c.state, inp.releaseOk, inp.releaseReopen);
    AcquiredTickShape(s, inp);
    assert f.effects[0] == Release(c.state.gen);
    assert ProcessFrame(s, inp).effects[|p.effects| + |c.effects|] == Release(c.state.gen);
  }

  /**
    Lines 89-99: the number of reopen attempts in an acquired tick: one for a
    throwing presentation path, and one more for a throwing release.
   */
  lemma AcquiredTickReopens(s: State, inp: TickInput)
    requires Live(s) && Classify(inp.code) == Acquired
    ensures Count(ProcessFrame(s, inp).effects, IsReinit)
            == (if PresentAcquired(s, inp.region, inp.fault).outcome.Err? then 1 else 0) + (if Survives(s, inp) && !inp.releaseOk then 1 else 0)
  {
    var c := CatchPart(s, inp);
    var f := FinallyRelease(c.state, inp.releaseOk, inp.releaseReopen);
    AcquiredTickShape(s, inp);
    TryPartCounts(s, inp);
    CatchCounts(s, inp);
    FinallyCounts(c.state, inp.releaseOk, inp.releaseReopen);
    CountAppend3(PresentAcquired(s, inp.region, inp.fault).effects, c.effects, f.effects, IsReinit);
  }

  /** Lines 200-204 with 89-93: a degenerate crop draws nothing, yet the frame is released. */
  lemma DegenerateCropStillReleases(s: State, inp: TickInput)
    requires Live(s) && Classify(inp.code) == Acquired && inp.fault != AtTexture
    requires Intersect(inp.region, s.monitor).IsDegenerate()
    ensures inp.releaseOk ==> ProcessFrame(s, inp) == Step(s, [Release(s.gen)], Ok)
    ensures var t := ProcessFrame(s, inp).effects;
            Count(t, IsRelease) == 1 && Count(t, IsResize) == 0 && Count(t, IsCopy) == 0 && Count(t, IsPresent) == 0
  {
    var f := FinallyRelease(s, inp.releaseOk, inp.releaseReopen);
    assert ProcessFrame(s, inp).effects == f.effects;
    FinallyCounts(s, inp.releaseOk, inp.releaseReopen);
  }

  /** The `try` part of a tick that reaches a non-degenerate crop: resize if needed, copy, present. */
  lemma TryPartOnCrop(s: State, inp: TickInput)
    requires Live(s) && Valid(s) && inp.fault != AtTexture
    requires !Intersect(inp.region, s.monitor).IsDegenerate()
    ensures var crop := Intersect(inp.region, s.monitor);
            var e := ResizeIfChanged(s, crop.Dimensions(), inp.fault != AtResize);
            var copy := Copy(0, 0, SourceBox(crop, s.monitor));
            && Count(e.effects, IsResize) == (if s.surface != crop.Dimensions() then 1 else 0)
            && Count(PresentAcquired(s, inp.region, inp.fault).effects, IsResize) == Count(e.effects, IsResize)
            && (inp.fault != AtResize ==> PresentAcquired(s, inp.region, inp.fault).state.surface == crop.Dimensions())
            && (inp.fault == NoFault ==> PresentAcquired(s, inp.region, inp.fault) == Step(e.state, e.effects + [copy, Present], Ok))
            && (inp.fault != AtResize ==> e.outcome.Ok?)
  {
    var crop := Intersect(inp.region, s.monitor);
    var e := ResizeIfChanged(s, crop.Dimensions(), inp.fault != AtResize);
    var copy := Copy(0, 0, SourceBox(crop, s.monitor));
    var p := PresentAcquired(s, inp.region, inp.fault);
    if e.outcome.Ok? {
      var tail := if inp.fault == AtCopy then [copy] else [copy, Present];
      assert p.effects == e.effects + tail;
      CountAppend(e.effects, tail, IsResize);
    }
  }

  /**
    Lines 206-209 and 258-264: in a tick that reaches the crop, the surface is
    resized exactly when the crop size differs from the recorded size, and the
    recorded size equals the crop size afterwards unless the resize threw.
   */
  lemma ResizeIffSizeChanged(s: State, inp: TickInput)
    requires Live(s) && Valid(s) && Classify(inp.code) == Acquired && inp.fault != AtTexture
    requires !Intersect(inp.region, s.monitor).IsDegenerate()
    ensures var crop := Intersect(inp.region, s.monitor);
            Count(ProcessFrame(s, inp).effects, IsResize) == (if s.surface != crop.Dimensions() then 1 else 0)
    ensures var crop := Intersect(inp.region, s.monitor);
            s.surface != crop.Dimensions() ==> ProcessFrame(s, inp).effects[0] == Resize(crop.Dimensions())
    ensures inp.fault != AtResize ==> ProcessFrame(s, inp).state.surface == Intersect(inp.region, s.monitor).Dimensions()
  {
    var crop := Intersect(inp.region, s.monitor);
    var p := PresentAcquired(s, inp.region, inp.fault);
    var c := CatchPart(s, inp);
    AcquiredTickShape(s, inp);
    TryPartOnCrop(s, inp);
    AcquiredTickResizes(s, inp);
    if s.surface != crop.Dimensions() {
      var e := ResizeIfChanged(s, crop.Dimensions(), inp.fault != AtResize);
      assert p.effects[0] == e.effects[0];
    }
  }

  /** In an acquired tick only the presentation path resizes. */
  lemma AcquiredTickResizes(s: State, inp: TickInput)
    requires Live(s) && Classify(inp.code) == Acquired
    ensures Count(ProcessFrame(s, inp).effects, IsResize) == Count(PresentAcquired(s, inp.region, inp.fault).effects, IsResize)
  {
    var c := CatchPart(s, inp);
    var f := FinallyRelease(c.state, inp.releaseOk, inp.releaseReopen);
    AcquiredTickShape(s, inp);
    CatchCounts(s, inp);
    FinallyCounts(c.state, inp.releaseOk, inp.releaseReopen);
    CountAppend3(PresentAcquired(s, inp.region, inp.fault).effects, c.effects, f.effects, IsResize);
  }

  /** The whole trace of a tick without faults that reaches a crop. */
  lemma NoFaultTickEffects(s: State, inp: TickInput)
    requires Live(s) && Valid(s) && Classify(inp.code) == Acquired && inp.fault == NoFault
    requires !Intersect(inp.region, s.monitor).IsDegenerate()
    ensures var crop := Intersect(inp.region, s.monitor);
            var e := ResizeIfChanged(s, crop.Dimensions(), true);
            var f := FinallyRelease(e.state, inp.releaseOk, inp.releaseReopen);
            && e.outcome.Ok? && e.state.duplication
            && ProcessFrame(s, inp) == Step(f.state, e.effects + [Copy(0, 0, SourceBox(crop, s.monitor)), Present] + f.effects, Ok)
  {
    var crop := Intersect(inp.region, s.monitor);
    var e := ResizeIfChanged(s, crop.Dimensions(), true);
    TryPartOnCrop(s, inp);
    assert CatchPart(s, inp) == Step(e.state, [], Ok);
    AcquiredTickShape(s, inp);
  }

  /**
    Lines 200 and 211-217: in every tick, whatever throws, each copy reads the
    crop translated into monitor-local coordinates, which is a box inside the
    monitor, and writes it at the back buffer's origin. A tick without faults
    that reaches a crop issues that copy.
   */
  lemma CopyBoxInsideMonitor(s: State, inp: TickInput)
    ensures var crop := Intersect(inp.region, s.monitor);
            forall e :: e in ProcessFrame(s, inp).effects && e.Copy? ==>
              && e.dstX == 0 && e.dstY == 0
              && e.src == Box(crop.x - s.monitor.x, crop.y - s.monitor.y,
                              crop.x - s.monitor.x + crop.width, crop.y - s.monitor.y + crop.height)
              && 0 <= e.src.left < e.src.right <= s.monitor.width
              && 0 <= e.src.top < e.src.bottom <= s.monitor.height
    ensures var crop := Intersect(inp.region, s.monitor);
            Live(s) && Valid(s) && Classify(inp.code) == Acquired && inp.fault == NoFault && !crop.IsDegenerate() ==>
              Copy(0, 0, Box(crop.x - s.monitor.x, crop.y - s.monitor.y,
                             crop.x - s.monitor.x + crop.width, crop.y - s.monitor.y + crop.height))
                in ProcessFrame(s, inp).effects
  {
    var crop := Intersect(inp.region, s.monitor);
    if Live(s) && Classify(inp.code) == Acquired {
      AcquiredTickCopies(s, inp);
      if Valid(s) && inp.fault == NoFault && !crop.IsDegenerate() {
        NoFaultTickEffects(s, inp);
      }
    }
  }

  /** Only the presentation path of an acquired tick copies, and each copy reads the box of a real crop. */
  lemma AcquiredTickCopies(s: State, inp: TickInput)
    requires Live(s) && Classify(inp.code) == Acquired
    ensures forall e :: e in ProcessFrame(s, inp).effects && e.Copy? ==>
              && e == Copy(0, 0, SourceBox(Intersect(inp.region, s.monitor), s.monitor))
              && !Intersect(inp.region, s.monitor).IsDegenerate()
  {
    var c := CatchPart(s, inp);
    AcquiredTickShape(s, inp);
    FinallyCounts(c.state, inp.releaseOk, inp.releaseReopen);
    assert forall e :: e in c.effects ==> !e.Copy?;
    NoCopyIn(FinallyRelease(c.state, inp.releaseOk, inp.releaseReopen).effects);
  }

  /** A trace whose copy count is zero holds no copy. */
  lemma NoCopyIn(t: seq<Effect>)
    requires Count(t, IsCopy) == 0
    ensures forall e :: e in t ==> !e.Copy?
  {
    assert forall i :: 0 <= i < |t| ==> !IsCopy(t[i]);
  }

  /** Lines 211-221 with 89-93: a tick without faults copies once, presents once and releases once. */
  lemma NoFaultTickCounts(s: State, inp: TickInput)
    requires Live(s) && Valid(s) && Classify(inp.code) == Acquired && inp.fault == NoFault
    requires !Intersect(inp.region, s.monitor).IsDegenerate()
    ensures Count(ProcessFrame(s, inp).effects, IsCopy) == 1
    ensures Count(ProcessFrame(s, inp).effects, IsPresent) == 1
    ensures Count(ProcessFrame(s, inp).effects, IsRelease) == 1
  {
    var crop := Intersect(inp.region, s.monitor);
    var e := ResizeIfChanged(s, crop.Dimensions(), true);
    NoFaultTickEffects(s, inp);
    FinallyCounts(e.state, inp.releaseOk, inp.releaseReopen);
    DrawnTraceCounts(e.effects, SourceBox(crop, s.monitor), FinallyRelease(e.state, inp.releaseOk, inp.releaseReopen).effects);
  }

  /** Resizes, one copy and one present, then a part that releases once: one copy, one present, one release. */
  lemma DrawnTraceCounts(resizes: seq<Effect>, box: Box, rest: seq<Effect>)
    requires forall i :: 0 <= i < |resizes| ==> resizes[i].Resize?
    requires Count(rest, IsRelease) == 1 && Count(rest, IsCopy) == 0 && Count(rest, IsPresent) == 0
    ensures var t := resizes + [Copy(0, 0, box), Present] + rest;
            Count(t, IsCopy) == 1 && Count(t, IsPresent) == 1 && Count(t, IsRelease) == 1
  {
    var mid := [Copy(0, 0, box), Present];
    CountAppend3(resizes, mid, rest, IsCopy);
    CountAppend3(resizes, mid, rest, IsPresent);
    CountAppend3(resizes, mid, rest, IsRelease);
  }

  /**
    Two ticks with the same region: once a tick has sized the surface for a
    crop, a second tick with that region issues no resize.
   */
  lemma SteadyRegionNoResize(s: State, first: TickInput, second: TickInput)
    requires Live(s) && Valid(s)
    requires Classify(first.code) == Acquired && first.fault != AtTexture && first.fault != AtResize
    requires second.region == first.region
    ensures Count(ProcessFrame(ProcessFrame(s, first).state, second).effects, IsResize) == 0
  {
    var s1 := ProcessFrame(s, first).state;
    var crop := Intersect(first.region, s.monitor);
    if !crop.IsDegenerate() {
      ResizeIffSizeChanged(s, first);
    }
    if Live(s1) && Classify(second.code) == Acquired && second.fault != AtTexture {
      if crop.IsDegenerate() {
        DegenerateCropStillReleases(s1, second);
      } else {
        ResizeIffSizeChanged(s1, second);
      }
    } else if Live(s1) && Classify(second.code) == Acquired {
      AcquiredTickShape(s1, second);
      CatchCounts(s1, second);
      var c := CatchPart(s1, second);
      FinallyCounts(c.state, second.releaseOk, second.releaseReopen);
      CountAppend3(PresentAcquired(s1, second.region, second.fault).effects, c.effects,
                   FinallyRelease(c.state, second.releaseOk, second.releaseReopen).effects, IsResize);
    } else if Live(s1) && Classify(second.code) != TimedOut {
      ReinitializeCounts(s1, second.reopen);
    }
  }

  // ---------------------------------------------------------------------------
  // Worked scenarios

  /**
    A region straddling the right edge of the monitor is cut at that edge:
    on a 2560x1440 monitor the region (2400,0,400x400) gives a surface of
    160x400 (not 400x400) and a copy of x from 2400 to 2560. Then one present
    follows and the frame is released.
   */
  lemma StraddlingRegionScenario(s: State, inp: TickInput)
    requires Live(s) && Valid(s) && Classify(inp.code) == Acquired && inp.fault == NoFault && inp.releaseOk
    requires var m := s.monitor; var g := inp.region;
             && m.x <= g.x < m.x + m.width < g.x + g.width
             && m.y <= g.y && 0 < g.height && g.y + g.height <= m.y + m.height
    ensures var m := s.monitor; var g := inp.region;
            var z := Size(m.x + m.width - g.x, g.height);
            ProcessFrame(s, inp)
              == Step(s.(surface := z),
                      (if s.surface != z then [Resize(z)] else [])
                        + [Copy(0, 0, Box(g.x - m.x, g.y - m.y, m.width, g.y - m.y + g.height)), Present, Release(s.gen)],
                      Ok)
  {
    var m := s.monitor;
    var g := inp.region;
    var crop := Intersect(g, m);
    assert crop == Rect(g.x, g.y, m.x + m.width - g.x, g.height);
    NoFaultTickEffects(s, inp);
  }

  /**
    A region lying wholly inside the monitor is used as it is: on a
    2560x1440 monitor at the origin, (100,100,800x600) gives source offset
    (100,100) and surface 800x600. A second identical tick issues no resize,
    one copy of the same box and one present.
   */
  lemma InsideRegionScenario(s: State, inp: TickInput)
    requires Live(s) && Valid(s) && Classify(inp.code) == Acquired && inp.fault == NoFault && inp.releaseOk
    requires var m := s.monitor; var g := inp.region;
             && 0 < g.width && m.x <= g.x && g.x + g.width <= m.x + m.width
             && 0 < g.height && m.y <= g.y && g.y + g.height <= m.y + m.height
    ensures var m := s.monitor; var g := inp.region;
            var s1 := s.(surface := g.Dimensions());
            var copy := Copy(0, 0, Box(g.x - m.x, g.y - m.y, g.x - m.x + g.width, g.y - m.y + g.height));
            && ProcessFrame(s, inp)
                 == Step(s1, (if s.surface != g.Dimensions() then [Resize(g.Dimensions())] else []) + [copy, Present, Release(s.gen)], Ok)
            && ProcessFrame(s1, inp) == Step(s1, [copy, Present, Release(s.gen)], Ok)
  {
    var s1 := s.(surface := inp.region.Dimensions());
    IntersectCovered(inp.region, s.monitor);
    NoFaultTickEffects(s, inp);
    NoFaultTickEffects(s1, inp);
  }

  /**
    Lines 80-93: when Present throws and the reopen finds the monitor again,
    the release is issued on the fresh duplication (number gen + 1), not on
    the one that delivered the frame (number gen).
   */
  lemma PresentFailureReleasesOnNewDuplication(s: State, inp: TickInput)
    requires Live(s) && Valid(s) && Classify(inp.code) == Acquired
    requires inp.fault == AtPresent && inp.releaseOk
    requires !Intersect(inp.region, s.monitor).IsDegenerate()
    requires ReopenSucceeds(s, inp.reopen)
    ensures var crop := Intersect(inp.region, s.monitor);
            var e := ResizeIfChanged(s, crop.Dimensions(), true);
            exists a, o :: IsFirstMatch(inp.reopen.adapters, s.monitorHandle, a, o)
              && ProcessFrame(s, inp).effects
                 == e.effects + [Copy(0, 0, SourceBox(crop, s.monitor)), Present,
                                 Reinit, Duplicate(a, o, s.gen + 1), Release(s.gen + 1)]
    ensures ProcessFrame(s, inp).state == s.(surface := Intersect(inp.region, s.monitor).Dimensions(), gen := s.gen + 1)
  {
    var crop := Intersect(inp.region, s.monitor);
    var e := ResizeIfChanged(s, crop.Dimensions(), true);
    var tail := [Copy(0, 0, SourceBox(crop, s.monitor)), Present];
    TryPartOnCrop(s, inp);
    assert PresentAcquired(s, inp.region, inp.fault) == Step(e.state, e.effects + tail, Err(FrameCallFailed));
    var i := InitializeDuplication(e.state, s.monitorHandle, inp.reopen);
    var a, o :| IsFirstMatch(inp.reopen.adapters, s.monitorHandle, a, o) && i.effects == [Duplicate(a, o, s.gen + 1)];
    var c := CatchPart(s, inp);
    assert c == Step(i.state, [Reinit, Duplicate(a, o, s.gen + 1)], Ok);
    assert FinallyRelease(c.state, true, inp.releaseReopen) == Step(c.state, [Release(s.gen + 1)], Ok);
    AcquiredTickShape(s, inp);
    assert ProcessFrame(s, inp).effects == e.effects + tail + [Reinit, Duplicate(a, o, s.gen + 1)] + [Release(s.gen + 1)];
  }

  // ---------------------------------------------------------------------------
  // Duplication search

  /** Lines 141-172: the search returns exactly the first match in adapter-then-output order. */
  lemma {:induction false} SearchFindsFirstMatch(adapters: seq<seq<Handle>>, h: Handle, a: nat, o: nat)
    ensures FindOutput(adapters, h, 0) == MatchAt(a, o) <==> IsFirstMatch(adapters, h, a, o)
  {
    var r := FindOutput(adapters, h, 0);
    if r == MatchAt(a, o) {
      forall a', o' | 0 <= a' < |adapters| && 0 <= o' < |adapters[a']| && Precedes(a', o', a, o)
        ensures adapters[a'][o'] != h
      {
        if a' < a {
        } else {
          assert a' == a && o' < o;
        }
      }
    }
    if IsFirstMatch(adapters, h, a, o) {
      assert adapters[a][o] == h;
      assert r.MatchAt?;
      assert !Precedes(r.adapter, r.output, a, o);
      assert !Precedes(a, o, r.adapter, r.output);
    }
  }

  /** With no output showing the monitor the search fails, and InitializeDuplication leaves no duplication. */
  lemma SearchFailsWithoutMatch(s: State, h: Handle, d: Displays)
    ensures FindOutput(d.adapters, h, 0) == NoMatch <==> !Shows(d.adapters, h)
    ensures !Shows(d.adapters, h) ==>
              InitializeDuplication(s, h, d).outcome.Err? && !InitializeDuplication(s, h, d).state.duplication
  {
    var r := FindOutput(d.adapters, h, 0);
    if r.MatchAt? {
      assert d.adapters[r.adapter][r.output] == h;
    }
  }

  // ---------------------------------------------------------------------------
  // Many ticks

  /** Lines 52-55 and 177-180: once the duplication is gone, every later tick does nothing. */
  lemma {:induction false} NoDuplicationNoTicks(s: State, ins: seq<TickInput>)
    requires !s.duplication
    ensures Run(s, ins) == Step(s, [], Ok)
    decreases |ins|
  {
    if ins != [] {
      NoDuplicationNoTicks(ProcessFrame(s, ins[0]).state, ins[1..]);
    }
  }

  /**
    Line 134 with 177-190: a tick whose reopen fails ends all capture: the
    ticks after it issue nothing, in particular no further reopen attempt.
   */
  lemma FailedReopenIsPermanent(s: State, inp: TickInput, rest: seq<TickInput>)
    requires Live(s) && Classify(inp.code) == Lost && !ReopenSucceeds(s, inp.reopen)
    ensures !ProcessFrame(s, inp).state.duplication
    ensures Run(s, [inp] + rest).effects == ProcessFrame(s, inp).effects
    ensures Count(Run(s, [inp] + rest).effects, IsReinit) == 1
  {
    var s1 := ProcessFrame(s, inp).state;
    NoDuplicationNoTicks(s1, rest);
    assert ([inp] + rest)[1..] == rest;
    assert Run(s, [inp] + rest).effects == ProcessFrame(s, inp).effects + [];
    AccessLostReopensOnce(s, inp);
  }

  /** Every sequence of ticks keeps the controller invariant and never changes monitor or surface presence. */
  lemma {:induction false} RunKeepsValid(s: State, ins: seq<TickInput>)
    requires Valid(s)
    ensures Valid(Run(s, ins).state)
    ensures Run(s, ins).state.monitor == s.monitor && Run(s, ins).state.swapChain == s.swapChain
    ensures Run(s, ins).state.gen >= s.gen
    decreases |ins|
  {
    if ins != [] {
      RunKeepsValid(ProcessFrame(s, ins[0]).state, ins[1..]);
    }
  }

  // ---------------------------------------------------------------------------
  // Lifecycle

  /**
    Lines 34-38 with the field defaults: the controller as constructed
    satisfies the invariant, is not live, and ticks before Start do nothing.
   */
  lemma InitialIsIdle(ins: seq<TickInput>)
    ensures Valid(Initial) && !Live(Initial)
    ensures Run(Initial, ins) == Step(Initial, [], Ok)
  {
    NoDuplicationNoTicks(Initial, ins);
  }

  /** Lines 105-108: a second device initialisation is a no-op, whatever its input. */
  lemma InitializeDeviceIdempotent(s: State, first: DeviceInit, second: DeviceInit)
    requires InitializeDevice(s, first).outcome.Ok?
    ensures var s1 := InitializeDevice(s, first).state;
            InitializeDevice(s1, second) == Step(s1, [], Ok)
  {
  }

  /** Lines 40-48: a successful Start binds the first matching output and sizes the surface to the monitor. */
  lemma StartBindsAndSizes(s: State, h: Handle, bounds: Rect, inp: StartInput)
    requires Valid(s) && Start(s, h, bounds, inp).outcome.Ok?
    ensures var r := Start(s, h, bounds, inp);
            && Live(r.state) && Valid(r.state)
            && r.state.surface == Clamp(bounds.Dimensions())
            && |r.effects| >= 1 && r.effects[0].Duplicate?
            && IsFirstMatch(inp.displays.adapters, h, r.effects[0].adapter, r.effects[0].output)
  {
    var s0 := s.(monitorHandle := h, monitor := bounds);
    var dev := InitializeDevice(s0, inp.deviceInit);
    var dup := InitializeDuplication(dev.state, h, inp.displays);
    var a, o :| IsFirstMatch(inp.displays.adapters, h, a, o) && dup.effects == [Duplicate(a, o, dev.state.gen + 1)];
  }

  /** Start fails, and no tick then does anything, when no output shows the monitor. */
  lemma StartWithoutMatchFails(s: State, h: Handle, bounds: Rect, inp: StartInput, ins: seq<TickInput>)
    requires Valid(s) && !Shows(inp.displays.adapters, h)
    ensures Start(s, h, bounds, inp).outcome.Err?
    ensures Run(Start(s, h, bounds, inp).state, ins).effects == []
  {
    var s0 := s.(monitorHandle := h, monitor := bounds);
    var dev := InitializeDevice(s0, inp.deviceInit);
    SearchFailsWithoutMatch(dev.state, h, inp.displays);
    assert !dev.state.device ==> !dev.state.duplication;
    NoDuplicationNoTicks(Start(s, h, bounds, inp).state, ins);
  }

  /** Lines 275-288: Dispose is idempotent and every tick after it does nothing. */
  lemma DisposeEndsCapture(s: State, ins: seq<TickInput>)
    ensures Dispose(Dispose(s)) == Dispose(s)
    ensures Run(Dispose(s), ins) == Step(Dispose(s), [], Ok)
  {
    NoDuplicationNoTicks(Dispose(s), ins);
  }
}
