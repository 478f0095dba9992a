# simple-timer-gif, modelled in Dafny

A model of the core of `simple-timer-gif`, a tool that renders a countdown
timer as an animated GIF. The animation has one frame per second. A ring of
dots empties as time runs out. The dots and the numeral turn red below an
optional warning threshold.

Two parts of the program are modelled:

- `validate_input` (validate.py) is a pure function `Validate.ValidateInput`.
  It runs over a record of seven dynamically typed parameters and returns
  `Accepted` or the first failing check. `Validate.Message` gives each
  check's `AssertionError` text.
- `create_timer_gif` (main.py) is the method `TimerGif.CreateTimerGif`. It
  validates, settles the output path and computes the centre. Then
  `TimerGif.RenderFrames` runs the two nested loops (ticks from `duration`
  down to 0, dots `0 .. t-1` inside each tick) and builds a sequence of frame
  descriptors. Each descriptor holds the tick, the dots (index, position,
  ellipse box, fill) and the numeral (text, fill, position). These loops are
  proved against the pure specification in module `Frames`, and the
  properties of the countdown are lemmas about that specification.

Files:

- `py_value.dfy`: Python values (`None`, bool, int, float, str, tuple, list).
  It also has truthiness and `isinstance(v, int)`. A `bool` counts as an
  int, as it does in Python.
- `decimal.dfy`: `str()` of an integer, and a digit reader that inverts it.
- `validate.dfy`: the assertion chain, a per-field statement of what is
  acceptable, and the lemmas that connect the two.
- `frames.dfy`: the per-frame specification and the countdown lemmas.
- `timer_gif.dfy`: `create_timer_gif` and its frame loops.

Two things the program measures are taken as function parameters. The
position of a dot is `dotAt(idx, duration)`, because the program computes it
with floating-point trigonometry. The glyph bounding box of a text is
`glyphBox(text)`, because the program gets it from the font.

The model keeps these details of the code exactly as written:

- The numeral turns red at `t <= warning`, but a dot is red only for
  `idx < warning` (main.py:114, main.py:135).
- Only `None` gets the default path. An empty string passes validation
  (validate.py:53) and is kept as the path.
- A `bool` passes every int check. A duration of `True` gives a one-second
  timer whose default path is `timerTrue.gif`.

## Model

| member | source | states |
|---|---|---|
| Validate.ValidateAcceptsIff | validate.py:43-75 | the parameters are accepted exactly when every field meets its rule: duration, warning, path, size, font size, dot radius and colour |
| Validate.ValidateInput | validate.py:43-75 | the assertion chain in source order; a rejection names a field that really is unacceptable, and every field the chain inspects earlier is acceptable |
| Validate.Message | validate.py:44-75 | the 17 assertion texts, character for character, in source order |
| Validate.MessageReadsBack | validate.py:44-75 | every message reads back to the check that raised it |
| Validate.MessagesDistinct | validate.py:44-75 | distinct checks raise distinct messages, so the printed text identifies the failed assertion |
| PyValue.Truthy | validate.py:53 | Python truthiness of a value; for an int or bool it is true iff the integer is non-zero |
| PyValue.IsInt | validate.py:44 | `isinstance(v, int)`, true for ints and for bools |
| PyValue.IntValue | validate.py:45 | the integer an int or bool compares as: the int itself, or 1 for True and 0 for False |
| PyValue.IntFormat | main.py:87 | `str()` of an int or bool: a minus sign exactly for negative ints, "True" or "False" for bools |
| Validate.FirstFailureReported | validate.py:43-75 | conversely, the first unacceptable field in source order is the one whose check is reported |
| Validate.DurationAcceptedIff | validate.py:44-45 | duration passes its checks iff it is an int (bool included) with 1 <= duration <= 999; a non-int is reported as `DurationNotInt`, an int outside the range as `DurationOutOfRange` |
| Validate.WarningAcceptedIff | validate.py:48-50 | with a valid duration, warning passes iff it is an int that is -1 or lies in 1..duration-1; a non-int is reported as `WarningNotInt`, any other failure as `WarningOutOfRange` |
| Validate.SentinelWarningAccepted | validate.py:49 | warning -1 is accepted for every valid duration |
| Validate.OneSecondAdmitsOnlySentinel | validate.py:49-50 | with duration 1, the only int warning not rejected as out of range is -1 |
| Validate.WarningOutsideRangeRejected | validate.py:49-50 | any warning other than -1 outside 1..duration-1 (for example -5, 0 or duration itself) is rejected as out of range |
| Validate.ResultPathCheckedOnlyWhenTruthy | validate.py:53-54 | the path check fails iff the path is truthy and not a string, so None and "" pass |
| Validate.SizeAcceptedIff | validate.py:57-60 | size passes iff it is a tuple of exactly two ints, both positive; a non-tuple, a tuple of another length, a pair with a non-int and a pair with a non-positive int are each reported by their own check |
| Validate.FontSizeAndDotRadiusAcceptedIff | validate.py:63-68 | font size and dot radius each pass iff they are ints greater than zero; a non-int is reported as not an integer, a non-positive int as not positive |
| Validate.ColorAcceptedIff | validate.py:71-75 | any string colour is accepted; a tuple is accepted iff it has four int channels in 0..255, and otherwise fails on its length, then on a non-int channel, then on a channel out of range; any other type is rejected as `ColorBadType` |
| Validate.DurationReportedBeforeColor | validate.py:44-75 | a duration of 0 is what gets reported even when the colour is a malformed 3-tuple |
| Decimal.NatText | main.py:121 | `str(t)` of a natural number: non-empty and all decimal digits |
| Decimal.IntText | main.py:87 | `str(i)` of any int: non-empty, with a leading minus sign exactly when i is negative |
| Decimal.NatTextWellFormed | main.py:121 | the text of a tick is non-empty, all digits, and starts with 0 only for 0 itself |
| Decimal.NatTextRoundTrip | main.py:121 | reading the text of n back as digits gives n |
| Decimal.NatTextInjective | main.py:121 | distinct ticks have distinct numerals |
| Frames.DotFill | main.py:114 | a dot is red iff its index is below the warning |
| Frames.NumeralFill | main.py:135 | the numeral is red iff the tick is at most the warning |
| Frames.Centre | main.py:90 | the centre is the floor half of the canvas in each axis, within one pixel of the true middle |
| Frames.NumeralPosition | main.py:123-129 | the numeral position computed with floor division from the canvas size and the glyph box, which puts twice the box centre at W-1 or W across and H-1 or H down |
| Frames.DotFor | main.py:105-115 | dot idx sits at dotAt(idx, duration), its ellipse box is centred on it with sides 2*dot_radius, and it is red iff idx < warning |
| Frames.DotsBelow | main.py:103-115 | the dots drawn for tick n: exactly n of them, dot j at place j |
| Frames.FrameFor | main.py:98-137 | the frame for tick t: tick t, exactly the dots 0..t-1, and a numeral that is red iff t <= warning |
| Frames.Countdown | main.py:97-140 | after k ticks the frame list has k frames, place i holding the frame for tick duration - i |
| Frames.AllFrames | main.py:97-140 | the whole frame list: duration+1 frames, place i showing tick duration - i |
| Frames.FrameDots | main.py:103-115 | frame t draws exactly t dots with indices 0..t-1, none at t = 0; each sits at dotAt(idx, duration) inside a box of half-side dot_radius |
| Frames.DotColourIff | main.py:114 | in every frame, dot j is red iff j < warning and black iff j >= warning |
| Frames.NumeralOfFrame | main.py:121-137 | the numeral is the decimal text of t, which reads back as t, and is red iff t <= warning |
| Frames.WarningBoundary | main.py:114-135 | at tick warning the numeral and all dots are red; at tick warning+1 the numeral is black and so is the extra dot `warning` |
| Frames.NumeralCentred | main.py:123-129 | the glyph box lands centred to within one pixel: twice its centre is W-1 or W across and H-1 or H down, even when the glyph is wider than the canvas |
| Frames.AllFramesTicks | main.py:97-140 | there are duration+1 frames, the first for duration and the last for 0, with ticks strictly decreasing in append order |
| Frames.DotsStable | main.py:103-109 | a dot present in two frames is identical in both, so dots do not move as the ring empties |
| Frames.NextFrameDropsLastDot | main.py:103-109 | each next frame's dots are the previous frame's minus the last one, which is dot t-1 |
| Frames.NoWarningNoRed | main.py:103-135 | with warning -1, no numeral and no dot of any frame is red |
| TimerGif.DefaultParams | main.py:8-15 | the defaults used when only the duration is given (warning -1, no path, 500 by 500, font size 120, dot radius 8, transparent white); every one but the duration is acceptable |
| TimerGif.DefaultsAcceptedIff | main.py:8-15 | with the defaults, the call is accepted exactly when the duration is valid, and otherwise fails on a duration check |
| TimerGif.DefaultTimer | main.py:8-15 | a default call for a valid duration d saves to `timer<d>.gif` a 500 by 500 countdown of d+1 frames with dots of radius 8, in which nothing is ever red |
| TimerGif.ResultPath | main.py:86-87 | the output path: a given value is kept as it is; None becomes a string "timer…" ending in ".gif" |
| TimerGif.LayoutOf | main.py:82-91 | the integer parameters the frames use, taken from a validated call: duration in 1..999, warning -1 or in 1..duration-1, positive canvas size and dot radius |
| TimerGif.ResultPathDefaulted | main.py:86-87 | a given path is kept, even ""; a missing one is "timer", then digits without a leading zero that read back as the duration, then ".gif"; a True duration gives "timerTrue.gif" |
| TimerGif.RenderFrames | main.py:94-140 | the nested tick and dot loops build exactly the countdown specification: duration+1 frames with ticks duration - i |
| TimerGif.CreateTimerGif | main.py:82-149 | it fails with exactly the check the validator reports; otherwise it returns the plan handed to the image library: the settled path, the canvas size and background, the full countdown, 1000 ms per frame and loop 0; the ring centre the dot positions are computed around is recorded alongside |

## Left out

- Pillow drawing is not modelled: `Image.new`, `ImageDraw.ellipse`, `ImageDraw.text` and `ImageFont.load_default`. A frame is the description of what would be drawn.
- Font measurement is not modelled. `font.getbbox` is the `glyphBox` parameter, so the font size only matters through it.
- Dot geometry is not modelled: the `math.cos`/`math.sin` angle, the `int()` truncation and the float radius `min(size) // 2.5`. These are floating point, and a dot's position is the `dotAt(idx, duration)` parameter. Because of this, the model does not state that the dots lie evenly on a circle.
- GIF encoding is not modelled, and neither is the retry without `disposal=2` after a `ValueError`. These are file I/O inside the image library. `Animation` keeps the frame duration (1000 ms) and the loop count (0) that are passed to the encoder.
- The `eval` reflection that gathers the arguments is replaced by passing the parameter record to the validator.
- The command-line parsing in parse.py is not modelled. It is argparse plumbing, and its size and colour parsing evaluates user strings.
- The traceback-limit changes in validate.py are not modelled. They change interpreter display state, not the validation outcome.
- Python types beyond `None`, bool, int, float, str, tuple and list are not modelled. Subclasses of str or tuple are not modelled either, so `type(color) in [str, tuple]` and `isinstance` agree in the model.
- TimerGif.CreateTimerGif: `Created` is the plan handed to the image library, not a guarantee that a file is written. Some inputs pass the validator but make the library raise `ValueError`, and the model does not capture that failure. One case is a colour string the library does not know (main.py:99). Another is a path such as "" whose extension names no image format: `save` raises at main.py:151, and the retry at main.py:153 raises again. So the validator does not catch every input error.
