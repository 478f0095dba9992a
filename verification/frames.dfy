/** What each frame of the countdown shows (main.py, `create_timer_gif`), with
    the raster drawing taken away: the tick, the dots with their colours and
    positions, and the numeral with its colour and position. The geometry
    of a dot and the glyph bounding box of the numeral are supplied by the
    caller as functions, standing for the floating-point trigonometry and
    the font measurement done by main.py. */
module Frames {
  import Decimal

  datatype Colour = Black | Red

  datatype Point = Point(x: int, y: int)

  /** A rectangle as `(left, top, right, bottom)`. */
  datatype Box = Box(left: int, top: int, right: int, bottom: int)

  /** One drawn dot: its index on the ring, where it sits, the rectangle the
      ellipse is drawn into, and its fill. */
  datatype Dot = Dot(index: nat, centre: Point, ellipse: Box, fill: Colour)

  /** One frame: the tick it shows, its dots in drawing order, and the
      numeral's text, fill and drawing position. */
  datatype Frame = Frame(tick: nat, dots: seq<Dot>, text: string, textFill: Colour, textAt: Point)

  /** The validated parameters the frames depend on. `dotAt(idx, duration)`
      is the on-screen position of dot `idx` on a ring of `duration` dots;
      `glyphBox(text)` is the bounding box the font reports for `text`. */
  datatype Layout = Layout(
    duration: nat,
    warning: int,
    width: int,
    height: int,
    dotRadius: int,
    dotAt: (nat, nat) -> Point,
    glyphBox: string -> Box)

  /** Dots are black from index `warning` on and red below it. */
  function DotFill(idx: nat, warning: int): (c: Colour)
    ensures c == Red <==> idx < warning
  {
    if idx >= warning then Black else Red
  }

  /** The numeral is black while the tick exceeds `warning` and red after. */
  function NumeralFill(t: nat, warning: int): (c: Colour)
    ensures c == Red <==> t <= warning
  {
    if t > warning then Black else Red
  }

  /** The ring centre `(W // 2, H // 2)`. */
  function Centre(width: int, height: int): (c: Point)
    requires width > 0 && height > 0
    ensures 0 <= 2 * c.x <= width < 2 * c.x + 2
    ensures 0 <= 2 * c.y <= height < 2 * c.y + 2
  {
    Point(width / 2, height / 2)
  }

  /** Where the numeral is drawn so that its glyph box is centred in the
      canvas. Python's `//` floors; so does Dafny's `/` by a positive divisor,
      including for the negative numerator of a glyph wider than the canvas. */
  function NumeralPosition(width: int, height: int, box: Box): (p: Point)
    ensures width - 1 <= (p.x + box.left) + (p.x + box.right) <= width
    ensures height - 1 <= (p.y + box.top) + (p.y + box.bottom) <= height
  {
    Point((width - (box.right - box.left)) / 2 - box.left,
          (height - (box.bottom - box.top)) / 2 - box.top)
  }

  /** The dot with index `idx`: its position depends on `idx` and the
      duration only. */
  function DotFor(L: Layout, idx: nat): (d: Dot)
    ensures d.index == idx && d.centre == L.dotAt(idx, L.duration)
    ensures d.ellipse.left + d.ellipse.right == 2 * d.centre.x
    ensures d.ellipse.top + d.ellipse.bottom == 2 * d.centre.y
    ensures d.ellipse.right - d.ellipse.left == 2 * L.dotRadius == d.ellipse.bottom - d.ellipse.top
    ensures d.fill == Red <==> idx < L.warning
  {
    var c := L.dotAt(idx, L.duration);
    Dot(idx, c,
        Box(c.x - L.dotRadius, c.y - L.dotRadius, c.x + L.dotRadius, c.y + L.dotRadius),
        DotFill(idx, L.warning))
  }

  /** The dots with indices `0 .. n-1`, in drawing order. */
  function DotsBelow(L: Layout, n: nat): (ds: seq<Dot>)
    ensures |ds| == n
    ensures forall j :: 0 <= j < n ==> ds[j] == DotFor(L, j)
  {
    if n == 0 then [] else DotsBelow(L, n - 1) + [DotFor(L, n - 1)]
  }

  /** The frame shown at tick `t`. */
  function FrameFor(L: Layout, t: nat): (f: Frame)
    ensures f.tick == t && |f.dots| == t
    ensures forall j :: 0 <= j < t ==> f.dots[j] == DotFor(L, j)
    ensures f.textFill == Red <==> t <= L.warning
  {
    var text := Decimal.NatText(t);
    Frame(t, DotsBelow(L, t), text, NumeralFill(t, L.warning),
          NumeralPosition(L.width, L.height, L.glyphBox(text)))
  }

  /** The first `k` frames of the countdown: ticks `duration` down to
      `duration - k + 1`, in the order they are appended. */
  function Countdown(L: Layout, k: nat): (fs: seq<Frame>)
    requires k <= L.duration + 1
    ensures |fs| == k
    ensures forall i :: 0 <= i < k ==> fs[i] == FrameFor(L, L.duration - i)
  {
    if k == 0 then [] else Countdown(L, k - 1) + [FrameFor(L, L.duration - (k - 1))]
  }

  /** The whole animation: every tick from `duration` down to 0. */
  function AllFrames(L: Layout): (fs: seq<Frame>)
    ensures |fs| == L.duration + 1
    ensures forall i :: 0 <= i < |fs| ==> fs[i].tick == L.duration - i
  {
    Countdown(L, L.duration + 1)
  }

  // ---------------------------------------------------------------------
  // Dots of one frame

  /** Frame `t` draws exactly `t` dots with indices `0 .. t-1`; in particular
      the frame for 0 has none. Each dot sits where `dotAt(idx, duration)`
      says and its ellipse is the square of half-side `dotRadius` around it. */
  lemma FrameDots(L: Layout, t: nat)
    ensures |FrameFor(L, t).dots| == t
    ensures t == 0 ==> FrameFor(L, t).dots == []
    ensures forall j :: 0 <= j < t ==>
      var d := FrameFor(L, t).dots[j];
      d.index == j && d.centre == L.dotAt(j, L.duration) &&
      d.ellipse == Box(d.centre.x - L.dotRadius, d.centre.y - L.dotRadius,
                       d.centre.x + L.dotRadius, d.centre.y + L.dotRadius)
  {
  }

  /** A dot is red iff its index is below `warning`. */
  lemma DotColourIff(L: Layout, t: nat, j: nat)
    requires j < t
    ensures |FrameFor(L, t).dots| == t
    ensures FrameFor(L, t).dots[j].fill == Red <==> j < L.warning
    ensures FrameFor(L, t).dots[j].fill == Black <==> j >= L.warning
  {
  }

  /** The numeral is the decimal text of the tick, and is red iff the tick is
      at most `warning`. */
  lemma NumeralOfFrame(L: Layout, t: nat)
    ensures forall k :: 0 <= k < |FrameFor(L, t).text| ==> Decimal.IsDigit(FrameFor(L, t).text[k])
    ensures Decimal.DigitsValue(FrameFor(L, t).text) == t
    ensures FrameFor(L, t).textFill == Red <==> t <= L.warning
  {
    Decimal.NatTextRoundTrip(t);
  }

  /** The asymmetry between dots and numeral at the warning boundary: at
      tick `warning` the numeral and every dot are red; one tick earlier the
      numeral is black and the extra dot (index `warning`) is black too. */
  lemma WarningBoundary(L: Layout)
    requires 1 <= L.warning
    ensures FrameFor(L, L.warning).textFill == Red
    ensures forall j :: 0 <= j < |FrameFor(L, L.warning).dots| ==> FrameFor(L, L.warning).dots[j].fill == Red
    ensures FrameFor(L, L.warning + 1).textFill == Black
    ensures |FrameFor(L, L.warning + 1).dots| == L.warning + 1
    ensures FrameFor(L, L.warning + 1).dots[L.warning].fill == Black
  {
  }

  /** The numeral's glyph box lands centred in the canvas to within one
      pixel: twice its centre is `W - 1` or `W` across, `H - 1` or `H` down. */
  lemma NumeralCentred(L: Layout, t: nat)
    ensures var p := FrameFor(L, t).textAt;
            var b := L.glyphBox(FrameFor(L, t).text);
            L.width - 1 <= (p.x + b.left) + (p.x + b.right) <= L.width &&
            L.height - 1 <= (p.y + b.top) + (p.y + b.bottom) <= L.height
  {
  }

  // ---------------------------------------------------------------------
  // The countdown as a whole

  /** The animation has `duration + 1` frames whose ticks run strictly down
      from `duration` to 0, in that order. */
  lemma AllFramesTicks(L: Layout)
    ensures |AllFrames(L)| == L.duration + 1
    ensures AllFrames(L)[0].tick == L.duration
    ensures AllFrames(L)[L.duration].tick == 0
    ensures forall i :: 0 <= i < |AllFrames(L)| ==> AllFrames(L)[i].tick == L.duration - i
    ensures forall i, j :: 0 <= i < j < |AllFrames(L)| ==> AllFrames(L)[i].tick > AllFrames(L)[j].tick
  {
  }

  /** Dots stay in place: a dot present in two frames is the same dot. */
  lemma DotsStable(L: Layout, i: nat, j: nat, idx: nat)
    requires i < j < |AllFrames(L)|
    requires idx < AllFrames(L)[j].tick
    ensures idx < |AllFrames(L)[i].dots| && idx < |AllFrames(L)[j].dots|
    ensures AllFrames(L)[i].dots[idx] == AllFrames(L)[j].dots[idx]
  {
  }

  /** Going from one frame to the next removes exactly the last dot, the
      one with index `t - 1`, and keeps the others as they were. */
  lemma NextFrameDropsLastDot(L: Layout, i: nat)
    requires i + 1 < |AllFrames(L)|
    ensures var t := AllFrames(L)[i].tick;
            t >= 1 && |AllFrames(L)[i].dots| == t &&
            AllFrames(L)[i].dots[t - 1].index == t - 1 &&
            AllFrames(L)[i + 1].dots == AllFrames(L)[i].dots[..t - 1]
  {
  }

  /** With the sentinel `warning = -1` nothing is ever red. */
  lemma NoWarningNoRed(L: Layout)
    requires L.warning == -1
    ensures forall i :: 0 <= i < |AllFrames(L)| ==> AllFrames(L)[i].textFill == Black
    ensures forall i, j :: 0 <= i < |AllFrames(L)| && 0 <= j < |AllFrames(L)[i].dots| ==>
              AllFrames(L)[i].dots[j].fill == Black
  {
  }
}
