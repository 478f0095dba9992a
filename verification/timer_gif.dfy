/** `create_timer_gif` (main.py): validate the parameters, settle the output
    path, then build one frame per tick from `duration` down to 0, each frame
    drawing its dots one by one. The result is the description of the
    animation that would be handed to the GIF encoder. */
module TimerGif {
  import Decimal
  import opened PyValue
  import opened Validate
  import opened Frames

  /** The plan of one animation: the output path, the canvas size and
      background each frame is created with, the ring centre (which only
      feeds the dot positions, and is recorded here for the reader), the
      frames in order, and what the encoder is given besides them: one
      second per frame and `loop = 0` (repeat forever). */
  datatype Animation = Animation(
    path: Value,
    width: int,
    height: int,
    background: Value,
    centre: Point,
    frames: seq<Frame>,
    frameMillis: nat,
    loop: nat)

  /** The outcome of one call: an animation, or the `AssertionError` raised
      by the first failing check. */
  datatype Outcome = Created(gif: Animation) | Failed(check: Check)

  /** The arguments `create_timer_gif` runs with when only `duration` is
      given: no warning, no path, a 500 by 500 canvas, font size 120, dot
      radius 8 and a transparent white background. Every one of them is
      acceptable whatever the duration. */
  function DefaultParams(duration: Value): (p: Params)
    ensures p.duration == duration
    ensures forall f: Field :: f != Duration ==> FieldOk(p, f)
  {
    Params(duration, Int(-1), None, Tuple([Int(500), Int(500)]), Int(120), Int(8),
           Tuple([Int(255), Int(255), Int(255), Int(0)]))
  }

  /** With the defaults, the call is accepted exactly when the duration is,
      and otherwise fails on a duration check. */
  lemma DefaultsAcceptedIff(duration: Value)
    ensures ValidateInput(DefaultParams(duration)) == Accepted <==> DurationOk(duration)
    ensures !DurationOk(duration) ==>
              ValidateInput(DefaultParams(duration)) in {Rejected(DurationNotInt), Rejected(DurationOutOfRange)}
  {
    ValidateAcceptsIff(DefaultParams(duration));
  }

  /** `python main.py <d>`: a 500 by 500 countdown of `d + 1` frames saved
      as `timer<d>.gif`, with dots of radius 8 and nothing ever red. */
  lemma DefaultTimer(d: int, dotAt: (nat, nat) -> Point, glyphBox: string -> Box)
    requires 1 <= d <= 999
    ensures AllFieldsOk(DefaultParams(Int(d)))
    ensures ResultPath(DefaultParams(Int(d))) == Str("timer" + Decimal.NatText(d) + ".gif")
    ensures var L := LayoutOf(DefaultParams(Int(d)), dotAt, glyphBox);
            L.duration == d && L.warning == -1 && L.width == 500 && L.height == 500 && L.dotRadius == 8 &&
            |AllFrames(L)| == d + 1 &&
            (forall i :: 0 <= i < |AllFrames(L)| ==> AllFrames(L)[i].textFill == Black) &&
            forall i, j :: 0 <= i < |AllFrames(L)| && 0 <= j < |AllFrames(L)[i].dots| ==>
              AllFrames(L)[i].dots[j].fill == Black
  {
    var L := LayoutOf(DefaultParams(Int(d)), dotAt, glyphBox);
    NoWarningNoRed(L);
  }

  /** The output path: `timer<duration>.gif` when none was given (`None`),
      otherwise the given value untouched, even an empty string. */
  function ResultPath(p: Params): (r: Value)
    requires IsInt(p.duration)
    ensures p.resultPath != None ==> r == p.resultPath
    ensures p.resultPath == None ==> r.Str? && |r.s| > 9 && r.s[..5] == "timer" && r.s[|r.s| - 4..] == ".gif"
  {
    if p.resultPath == None then Str("timer" + IntFormat(p.duration) + ".gif") else p.resultPath
  }

  /** The frame parameters of a validated call. */
  function LayoutOf(p: Params, dotAt: (nat, nat) -> Point, glyphBox: string -> Box): (L: Layout)
    requires AllFieldsOk(p)
    ensures 1 <= L.duration <= 999 && L.duration == IntValue(p.duration)
    ensures L.warning == -1 || 1 <= L.warning < L.duration
    ensures L.width > 0 && L.height > 0 && L.dotRadius > 0
    ensures L.dotAt == dotAt && L.glyphBox == glyphBox
  {
    Layout(IntValue(p.duration), IntValue(p.warning),
           IntValue(p.size.items[0]), IntValue(p.size.items[1]),
           IntValue(p.dotRadius), dotAt, glyphBox)
  }

  /** A given path is kept; a missing one becomes "timer", the decimal
      duration, ".gif". A `True` duration passes validation as 1 but is
      formatted by its own name. */
  lemma ResultPathDefaulted(p: Params)
    requires DurationOk(p.duration)
    ensures p.resultPath != None ==> ResultPath(p) == p.resultPath
    ensures p.resultPath == None && p.duration.Int? ==>
              var s := ResultPath(p).s;
              ResultPath(p).Str? && |s| > 9 && s[..5] == "timer" && s[|s| - 4..] == ".gif" &&
              (forall k :: 5 <= k < |s| - 4 ==> Decimal.IsDigit(s[k])) &&
              s[5] != '0' &&
              Decimal.DigitsValue(s[5..|s| - 4]) == p.duration.i
    ensures p.resultPath == None && p.duration == Bool(true) ==> ResultPath(p) == Str("timerTrue.gif")
  {
    if p.resultPath == None && p.duration.Int? {
      var n: nat := p.duration.i;
      Decimal.NatTextRoundTrip(n);
      Decimal.NatTextWellFormed(n);
      var s := ResultPath(p).s;
      assert s == "timer" + Decimal.NatText(n) + ".gif";
      assert s[5..|s| - 4] == Decimal.NatText(n);
    }
  }

  /** Validates `p` and, when it passes, builds the frames of the countdown.
      `dotAt` gives a dot's position from its index and the duration (the
      trigonometry of main.py); `glyphBox` gives the font's bounding
      box of a text. */
  method CreateTimerGif(p: Params, dotAt: (nat, nat) -> Point, glyphBox: string -> Box)
    returns (r: Outcome)
    ensures r.Failed? <==> ValidateInput(p).Rejected?
    ensures r.Failed? ==> r.check == ValidateInput(p).failed
    ensures r.Created? ==>
              AllFieldsOk(p) &&
              r.gif == Animation(ResultPath(p), IntValue(p.size.items[0]), IntValue(p.size.items[1]),
                                 p.color, Centre(IntValue(p.size.items[0]), IntValue(p.size.items[1])),
                                 AllFrames(LayoutOf(p, dotAt, glyphBox)), 1000, 0)
    ensures r.Created? ==>
              |r.gif.frames| == IntValue(p.duration) + 1 &&
              forall i :: 0 <= i < |r.gif.frames| ==> r.gif.frames[i].tick == IntValue(p.duration) - i
  {
    var verdict := ValidateInput(p);
    if verdict.Rejected? {
      return Failed(verdict.failed);
    }
    ValidateAcceptsIff(p);

    var path := ResultPath(p);

    var width, height := IntValue(p.size.items[0]), IntValue(p.size.items[1]);
    var centre := Centre(width, height);
    var frames := RenderFrames(LayoutOf(p, dotAt, glyphBox));
    r := Created(Animation(path, width, height, p.color, centre, frames, 1000, 0));
  }

  /** The `for t in range(duration, -1, -1)` loop: one frame per tick, each
      drawing dots `0 .. t-1` in turn, then the numeral. */
  method RenderFrames(L: Layout) returns (frames: seq<Frame>)
    ensures frames == AllFrames(L)
    ensures |frames| == L.duration + 1
    ensures forall i :: 0 <= i < |frames| ==> frames[i].tick == L.duration - i
  {
    frames := [];
    var t: int := L.duration;
    while t >= 0
      invariant -1 <= t <= L.duration
      invariant frames == Countdown(L, L.duration - t)
    {
      var dots: seq<Dot> := [];
      for idx := 0 to t
        invariant dots == DotsBelow(L, idx)
      {
        var c := L.dotAt(idx, L.duration);
        var ellipse := Box(c.x - L.dotRadius, c.y - L.dotRadius, c.x + L.dotRadius, c.y + L.dotRadius);
        dots := dots + [Dot(idx, c, ellipse, DotFill(idx, L.warning))];
      }
      var text := Decimal.NatText(t);
      var position := NumeralPosition(L.width, L.height, L.glyphBox(text));
      frames := frames + [Frame(t, dots, text, NumeralFill(t, L.warning), position)];
      t := t - 1;
    }
  }
}
