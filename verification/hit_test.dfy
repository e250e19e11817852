/**
  The edge hit-test of the transparent capture panel. Near any edge of the
  panel a WM_NCHITTEST is answered HTTRANSPARENT, so the window underneath
  (the main window, which implements resizing) receives the mouse; everything
  else goes to the base control's handler.
 */
module HitTest {

  /** WM_NCHITTEST. */
  const WmNcHitTest: int := 0x0084
  /** HTTRANSPARENT. */
  const HtTransparent: int := -1
  /** The initial value of EffectiveResizeMargin. */
  const DefaultResizeMargin: int := 8

  /** What WndProc does with a message: answer it itself, or pass it to the base handler. */
  datatype Dispatch = Answered(result: int) | BaseHandler

  /** The panel's size and its resize margin (EffectiveResizeMargin). */
  datatype Panel = Panel(width: int, height: int, resizeMargin: int)

  /** A freshly constructed panel of the given size. */
  function NewPanel(width: int, height: int): (p: Panel)
    ensures p.width == width && p.height == height
    ensures p.resizeMargin == 8
  {
    Panel(width, height, DefaultResizeMargin)
  }

  /**
    The four edge tests on a client point. Left and top compare strictly
    against the margin; right and bottom compare the remaining distance with
    `<=`, so the two sides are not symmetric.
   */
  predicate NearEdge(p: Panel, x: int, y: int) {
    var mrg := p.resizeMargin;
    x < mrg || y < mrg || p.width - x <= mrg || p.height - y <= mrg
  }

  /** Reference definition: the band of client points that are at least a margin from every edge. */
  predicate Interior(p: Panel, x: int, y: int) {
    p.resizeMargin <= x < p.width - p.resizeMargin && p.resizeMargin <= y < p.height - p.resizeMargin
  }

  /** WndProc on message `msg` with the cursor at client point (x, y). */
  function WndProc(p: Panel, msg: int, x: int, y: int): (r: Dispatch)
    ensures r == BaseHandler <==> msg != WmNcHitTest || Interior(p, x, y)
    ensures r != BaseHandler ==> r == Answered(HtTransparent)
  {
    if msg == WmNcHitTest && NearEdge(p, x, y) then Answered(HtTransparent)
    else BaseHandler
  }

  /** Lines 18 and 35: every other message goes to the base handler. */
  lemma OtherMessagesPassThrough(p: Panel, msg: int, x: int, y: int)
    requires msg != WmNcHitTest
    ensures WndProc(p, msg, x, y) == BaseHandler
  {
  }

  /** Lines 23-31: a hit-test is answered HTTRANSPARENT exactly when the point is near an edge. */
  lemma TransparentIffNearEdge(p: Panel, x: int, y: int)
    ensures WndProc(p, WmNcHitTest, x, y) == Answered(HtTransparent) <==> NearEdge(p, x, y)
    ensures NearEdge(p, x, y) <==> !Interior(p, x, y)
  {
  }

  /** Lines 23-24 and 28-31: with a non-negative margin, points left of or above the panel are transparent. */
  lemma OutsideTopLeftIsTransparent(p: Panel, x: int, y: int)
    requires p.resizeMargin >= 0 && (x < 0 || y < 0)
    ensures WndProc(p, WmNcHitTest, x, y) == Answered(HtTransparent)
  {
  }

  /** Lines 23-28: a larger margin can turn base results into transparent ones, never the reverse. */
  lemma WiderMarginOnlyAddsTransparency(p: Panel, wider: int, msg: int, x: int, y: int)
    requires p.resizeMargin <= wider
    requires WndProc(p, msg, x, y) == Answered(HtTransparent)
    ensures WndProc(p.(resizeMargin := wider), msg, x, y) == Answered(HtTransparent)
  {
  }

  /**
    Lines 11 and 23-26 on a 100x100 panel with the default margin: x = 7 is
    near the left edge but x = 8 is not, while x = 92 (distance 8) is near the
    right edge and x = 91 is not; the same holds for y.
   */
  lemma DefaultMarginIsAsymmetric()
    ensures var p := NewPanel(100, 100);
            && WndProc(p, WmNcHitTest, 7, 50) == Answered(HtTransparent)
            && WndProc(p, WmNcHitTest, 8, 50) == BaseHandler
            && WndProc(p, WmNcHitTest, 92, 50) == Answered(HtTransparent)
            && WndProc(p, WmNcHitTest, 91, 50) == BaseHandler
            && WndProc(p, WmNcHitTest, 50, 7) == Answered(HtTransparent)
            && WndProc(p, WmNcHitTest, 50, 8) == BaseHandler
            && WndProc(p, WmNcHitTest, 50, 92) == Answered(HtTransparent)
            && WndProc(p, WmNcHitTest, 50, 91) == BaseHandler
  {
  }
}
