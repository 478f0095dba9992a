/** `validate_input` (validate.py): a fixed chain of assertions over the seven
    timer parameters. The first assertion that fails decides the reported
    message; when none fails the parameters are accepted. */
module Validate {
  import opened PyValue

  /** The seven arguments of `create_timer_gif`, in declaration order. */
  datatype Params = Params(
    duration: Value,
    warning: Value,
    resultPath: Value,
    size: Value,
    fontSize: Value,
    dotRadius: Value,
    color: Value)

  /** One constructor per `assert` of validate.py, in source order. */
  datatype Check =
    | DurationNotInt
    | DurationOutOfRange
    | WarningNotInt
    | WarningOutOfRange
    | ResultPathNotStr
    | SizeNotTuple
    | SizeNotPair
    | SizeNotInts
    | SizeNotPositive
    | FontSizeNotInt
    | FontSizeNotPositive
    | DotRadiusNotInt
    | DotRadiusNotPositive
    | ColorBadType
    | ColorNotFour
    | ColorNotInts
    | ColorOutOfRange

  /** The text of the `AssertionError` each check raises. */
  function Message(c: Check): (m: string)
  {
    match c
    case DurationNotInt => "Duration must be integer."
    case DurationOutOfRange => "Duration must be between 1 and 999 inclusive."
    case WarningNotInt => "Warning must be integer."
    case WarningOutOfRange => "Warning must be between 1 and duration - 1 inclusive."
    case ResultPathNotStr => "Result path must be string."
    case SizeNotTuple => "Size must be tuple."
    case SizeNotPair => "Size tuple must be exactly 2 elements."
    case SizeNotInts => "Size tuple must have all integer elements."
    case SizeNotPositive => "All integer elements in size tuple must be positive."
    case FontSizeNotInt => "Font size must be integer."
    case FontSizeNotPositive => "Font size must be positive."
    case DotRadiusNotInt => "Dot radius must be integer."
    case DotRadiusNotPositive => "Dot radius must be positive."
    case ColorBadType => "Color must be string or RGBA tuple."
    case ColorNotFour => "Color defined by RGBA tuple must be exactly 4 elements."
    case ColorNotInts => "Color defined by RGBA tuple must have all integer elements."
    case ColorOutOfRange => "All color channels must be integers between 0 and 255 inclusive."
  }

  /** What a printed message tells its reader: the check behind it, if any. */
  datatype Reading = Unknown | Names(check: Check)

  /** Reads a message back to its check. The seventeen texts already differ in
      length, except three of 27 characters that differ in the letter before
      the full stop. */
  function CheckOfMessage(m: string): (r: Reading)
  {
    if |m| == 19 then Names(SizeNotTuple)
    else if |m| == 24 then Names(WarningNotInt)
    else if |m| == 25 then Names(DurationNotInt)
    else if |m| == 26 then Names(FontSizeNotInt)
    else if |m| == 27 then
      (if m[25] == 'r' then Names(DotRadiusNotInt)
       else if m[25] == 'e' then Names(FontSizeNotPositive)
       else if m[25] == 'g' then Names(ResultPathNotStr)
       else Unknown)
    else if |m| == 28 then Names(DotRadiusNotPositive)
    else if |m| == 35 then Names(ColorBadType)
    else if |m| == 38 then Names(SizeNotPair)
    else if |m| == 42 then Names(SizeNotInts)
    else if |m| == 45 then Names(DurationOutOfRange)
    else if |m| == 52 then Names(SizeNotPositive)
    else if |m| == 53 then Names(WarningOutOfRange)
    else if |m| == 55 then Names(ColorNotFour)
    else if |m| == 59 then Names(ColorNotInts)
    else if |m| == 64 then Names(ColorOutOfRange)
    else Unknown
  }

  /** Every message reads back to the check that raised it. */
  lemma MessageReadsBack(c: Check)
    ensures CheckOfMessage(Message(c)) == Names(c)
  {
    match c
    case DurationNotInt | DurationOutOfRange | WarningNotInt | WarningOutOfRange | ResultPathNotStr =>
      EarlyMessagesReadBack(c);
    case SizeNotTuple | SizeNotPair | SizeNotInts | SizeNotPositive | FontSizeNotInt | FontSizeNotPositive =>
      MiddleMessagesReadBack(c);
    case DotRadiusNotInt | DotRadiusNotPositive | ColorBadType | ColorNotFour | ColorNotInts | ColorOutOfRange =>
      LateMessagesReadBack(c);
  }

  // Three helpers, so that each proof only measures a few of the texts.

  lemma EarlyMessagesReadBack(c: Check)
    requires c in {DurationNotInt, DurationOutOfRange, WarningNotInt, WarningOutOfRange, ResultPathNotStr}
    ensures CheckOfMessage(Message(c)) == Names(c)
  {
  }

  lemma MiddleMessagesReadBack(c: Check)
    requires c in {SizeNotTuple, SizeNotPair, SizeNotInts, SizeNotPositive, FontSizeNotInt, FontSizeNotPositive}
    ensures CheckOfMessage(Message(c)) == Names(c)
  {
  }

  lemma LateMessagesReadBack(c: Check)
    requires c in {DotRadiusNotInt, DotRadiusNotPositive, ColorBadType, ColorNotFour, ColorNotInts, ColorOutOfRange}
    ensures CheckOfMessage(Message(c)) == Names(c)
  {
  }

  /** Distinct checks raise distinct messages, so the printed text identifies
      the failed assertion. */
  lemma MessagesDistinct(c1: Check, c2: Check)
    requires c1 != c2
    ensures Message(c1) != Message(c2)
  {
    MessageReadsBack(c1);
    MessageReadsBack(c2);
  }

  datatype Verdict = Accepted | Rejected(failed: Check)

  predicate AllInts(items: seq<Value>)
  {
    forall k :: 0 <= k < |items| ==> IsInt(items[k])
  }

  /** The chain of assertions, each evaluated only once the earlier ones
      hold. A rejection names a field that is unacceptable while every
      field the chain looks at earlier is acceptable. */
  function ValidateInput(p: Params): (v: Verdict)
    ensures v.Rejected? ==> !FieldOk(p, FieldOf(v.failed))
    ensures v.Rejected? ==> forall f: Field :: Rank(f) < Rank(FieldOf(v.failed)) ==> FieldOk(p, f)
  {
    if !IsInt(p.duration) then Rejected(DurationNotInt)
    else if !(1 <= IntValue(p.duration) <= 999) then Rejected(DurationOutOfRange)
    else if !IsInt(p.warning) then Rejected(WarningNotInt)
    else if IntValue(p.warning) != -1 && !(1 <= IntValue(p.warning) <= IntValue(p.duration) - 1)
    then Rejected(WarningOutOfRange)
    else if Truthy(p.resultPath) && !p.resultPath.Str? then Rejected(ResultPathNotStr)
    else if !p.size.Tuple? then Rejected(SizeNotTuple)
    else if |p.size.items| != 2 then Rejected(SizeNotPair)
    else if !AllInts(p.size.items) then Rejected(SizeNotInts)
    else if !(forall k :: 0 <= k < 2 ==> IntValue(p.size.items[k]) > 0) then Rejected(SizeNotPositive)
    else if !IsInt(p.fontSize) then Rejected(FontSizeNotInt)
    else if !(IntValue(p.fontSize) > 0) then Rejected(FontSizeNotPositive)
    else if !IsInt(p.dotRadius) then Rejected(DotRadiusNotInt)
    else if !(IntValue(p.dotRadius) > 0) then Rejected(DotRadiusNotPositive)
    else if !(p.color.Str? || p.color.Tuple?) then Rejected(ColorBadType)
    else if p.color.Str? then Accepted
    else if |p.color.items| != 4 then Rejected(ColorNotFour)
    else if !AllInts(p.color.items) then Rejected(ColorNotInts)
    else if !(forall k :: 0 <= k < 4 ==> 0 <= IntValue(p.color.items[k]) <= 255)
    then Rejected(ColorOutOfRange)
    else Accepted
  }

  // ---------------------------------------------------------------------
  // A declarative statement of what each parameter must be, independent of
  // the order in which the chain looks at them.

  datatype Field = Duration | Warning | Path | Size | FontSize | DotRadius | Color

  /** Position of a field in the chain. */
  function Rank(f: Field): (r: nat)
  {
    match f
    case Duration => 0
    case Warning => 1
    case Path => 2
    case Size => 3
    case FontSize => 4
    case DotRadius => 5
    case Color => 6
  }

  /** The parameter a check inspects. */
  function FieldOf(c: Check): (f: Field)
  {
    match c
    case DurationNotInt | DurationOutOfRange => Duration
    case WarningNotInt | WarningOutOfRange => Warning
    case ResultPathNotStr => Path
    case SizeNotTuple | SizeNotPair | SizeNotInts | SizeNotPositive => Size
    case FontSizeNotInt | FontSizeNotPositive => FontSize
    case DotRadiusNotInt | DotRadiusNotPositive => DotRadius
    case ColorBadType | ColorNotFour | ColorNotInts | ColorOutOfRange => Color
  }

  /** An int (or bool) in 1..999. */
  predicate DurationOk(d: Value)
  {
    IsInt(d) && 1 <= IntValue(d) <= 999
  }

  /** The sentinel -1, or an int in 1..duration-1. */
  predicate WarningOk(w: Value, d: Value)
  {
    IsInt(w) && (IntValue(w) == -1 || (IsInt(d) && 1 <= IntValue(w) < IntValue(d)))
  }

  /** Only a truthy path is type-checked. */
  predicate ResultPathOk(r: Value)
  {
    !Truthy(r) || r.Str?
  }

  /** A pair of positive ints. */
  predicate SizeOk(s: Value)
  {
    s.Tuple? && |s.items| == 2 &&
    forall k :: 0 <= k < |s.items| ==> IsInt(s.items[k]) && IntValue(s.items[k]) >= 1
  }

  predicate PositiveInt(v: Value)
  {
    IsInt(v) && IntValue(v) >= 1
  }

  /** Any string, or four int channels each in 0..255. */
  predicate ColorOk(c: Value)
  {
    c.Str? ||
    (c.Tuple? && |c.items| == 4 &&
     forall k :: 0 <= k < |c.items| ==> IsInt(c.items[k]) && 0 <= IntValue(c.items[k]) < 256)
  }

  predicate FieldOk(p: Params, f: Field)
  {
    match f
    case Duration => DurationOk(p.duration)
    case Warning => WarningOk(p.warning, p.duration)
    case Path => ResultPathOk(p.resultPath)
    case Size => SizeOk(p.size)
    case FontSize => PositiveInt(p.fontSize)
    case DotRadius => PositiveInt(p.dotRadius)
    case Color => ColorOk(p.color)
  }

  predicate AllFieldsOk(p: Params)
  {
    FieldOk(p, Duration) && FieldOk(p, Warning) && FieldOk(p, Path) && FieldOk(p, Size) &&
    FieldOk(p, FontSize) && FieldOk(p, DotRadius) && FieldOk(p, Color)
  }

  // ---------------------------------------------------------------------
  // What the chain decides.

  /** The parameters are accepted exactly when every field is acceptable. */
  lemma ValidateAcceptsIff(p: Params)
    ensures ValidateInput(p) == Accepted <==> AllFieldsOk(p)
  {
  }

  /** Conversely, the first unacceptable field in chain order is the one reported. */
  lemma FirstFailureReported(p: Params, f: Field)
    requires !FieldOk(p, f)
    requires forall g: Field :: Rank(g) < Rank(f) ==> FieldOk(p, g)
    ensures ValidateInput(p).Rejected? && FieldOf(ValidateInput(p).failed) == f
  {
  }

  /** `duration` passes its two checks iff it is an int in 1..999; a
      non-int is reported as such, an int outside the range as out of range. */
  lemma DurationAcceptedIff(p: Params)
    ensures ValidateInput(p) !in {Rejected(DurationNotInt), Rejected(DurationOutOfRange)}
            <==> IsInt(p.duration) && 1 <= IntValue(p.duration) <= 999
    ensures !IsInt(p.duration) ==> ValidateInput(p) == Rejected(DurationNotInt)
    ensures IsInt(p.duration) && !(1 <= IntValue(p.duration) <= 999) ==>
            ValidateInput(p) == Rejected(DurationOutOfRange)
  {
  }

  /** With a valid duration, `warning` passes its checks iff it is an int
      that is -1 or lies in 1..duration-1; which of the two checks fails is
      decided by whether it is an int at all. */
  lemma WarningAcceptedIff(p: Params)
    requires DurationOk(p.duration)
    ensures ValidateInput(p) !in {Rejected(WarningNotInt), Rejected(WarningOutOfRange)}
            <==> IsInt(p.warning) &&
                 (IntValue(p.warning) == -1 || 1 <= IntValue(p.warning) <= IntValue(p.duration) - 1)
    ensures !IsInt(p.warning) ==> ValidateInput(p) == Rejected(WarningNotInt)
    ensures IsInt(p.warning) && IntValue(p.warning) != -1 &&
            !(1 <= IntValue(p.warning) <= IntValue(p.duration) - 1) ==>
            ValidateInput(p) == Rejected(WarningOutOfRange)
  {
  }

  /** The sentinel -1 is accepted whatever the (valid) duration. */
  lemma SentinelWarningAccepted(p: Params)
    requires DurationOk(p.duration) && p.warning == Int(-1)
    ensures ValidateInput(p) !in {Rejected(WarningNotInt), Rejected(WarningOutOfRange)}
  {
  }

  /** A one-second timer admits no warning other than the sentinel. */
  lemma OneSecondAdmitsOnlySentinel(p: Params, w: int)
    requires p.duration == Int(1) && p.warning == Int(w)
    ensures ValidateInput(p) != Rejected(WarningOutOfRange) <==> w == -1
  {
  }

  /** Any warning other than -1 outside 1..duration-1 is reported as out of
      range: -5, 0 and `duration` itself among them. */
  lemma WarningOutsideRangeRejected(p: Params, w: int)
    requires DurationOk(p.duration) && p.warning == Int(w) && w != -1
    requires w < 1 || w >= IntValue(p.duration)
    ensures ValidateInput(p) == Rejected(WarningOutOfRange)
  {
  }

  /** `None` and the empty string both pass the result-path check, and so
      does every other falsy value; a truthy non-string fails it. */
  lemma ResultPathCheckedOnlyWhenTruthy(p: Params)
    requires DurationOk(p.duration) && WarningOk(p.warning, p.duration)
    ensures ValidateInput(p) == Rejected(ResultPathNotStr) <==> Truthy(p.resultPath) && !p.resultPath.Str?
    ensures p.resultPath in {None, Str("")} ==> ValidateInput(p) != Rejected(ResultPathNotStr)
  {
  }

  /** `size` passes its four checks iff it is a tuple of exactly two positive ints. */
  lemma SizeAcceptedIff(p: Params)
    requires DurationOk(p.duration) && WarningOk(p.warning, p.duration) && ResultPathOk(p.resultPath)
    ensures ValidateInput(p) !in {Rejected(SizeNotTuple), Rejected(SizeNotPair),
                                  Rejected(SizeNotInts), Rejected(SizeNotPositive)}
            <==> p.size.Tuple? && |p.size.items| == 2 &&
                 IsInt(p.size.items[0]) && IsInt(p.size.items[1]) &&
                 IntValue(p.size.items[0]) > 0 && IntValue(p.size.items[1]) > 0
    ensures !p.size.Tuple? ==> ValidateInput(p) == Rejected(SizeNotTuple)
    ensures p.size.Tuple? && |p.size.items| != 2 ==> ValidateInput(p) == Rejected(SizeNotPair)
    ensures p.size.Tuple? && |p.size.items| == 2 && !(IsInt(p.size.items[0]) && IsInt(p.size.items[1])) ==>
            ValidateInput(p) == Rejected(SizeNotInts)
    ensures p.size.Tuple? && |p.size.items| == 2 && IsInt(p.size.items[0]) && IsInt(p.size.items[1]) &&
            (IntValue(p.size.items[0]) <= 0 || IntValue(p.size.items[1]) <= 0) ==>
            ValidateInput(p) == Rejected(SizeNotPositive)
  {
  }

  /** `font_size` and `dot_radius` must each be a positive int. */
  lemma FontSizeAndDotRadiusAcceptedIff(p: Params)
    requires DurationOk(p.duration) && WarningOk(p.warning, p.duration)
    requires ResultPathOk(p.resultPath) && SizeOk(p.size)
    ensures ValidateInput(p) !in {Rejected(FontSizeNotInt), Rejected(FontSizeNotPositive)}
            <==> IsInt(p.fontSize) && IntValue(p.fontSize) > 0
    ensures !IsInt(p.fontSize) ==> ValidateInput(p) == Rejected(FontSizeNotInt)
    ensures IsInt(p.fontSize) && IntValue(p.fontSize) <= 0 ==> ValidateInput(p) == Rejected(FontSizeNotPositive)
    ensures IsInt(p.fontSize) && IntValue(p.fontSize) > 0 ==>
            (ValidateInput(p) !in {Rejected(DotRadiusNotInt), Rejected(DotRadiusNotPositive)}
             <==> IsInt(p.dotRadius) && IntValue(p.dotRadius) > 0) &&
            (!IsInt(p.dotRadius) ==> ValidateInput(p) == Rejected(DotRadiusNotInt)) &&
            (IsInt(p.dotRadius) && IntValue(p.dotRadius) <= 0 ==> ValidateInput(p) == Rejected(DotRadiusNotPositive))
  {
  }

  /** Every string colour is accepted; a tuple must hold four int channels in
      0..255; any other type is rejected. */
  lemma ColorAcceptedIff(p: Params)
    requires forall f: Field :: f != Color ==> FieldOk(p, f)
    ensures p.color.Str? ==> ValidateInput(p) == Accepted
    ensures !p.color.Str? && !p.color.Tuple? ==> ValidateInput(p) == Rejected(ColorBadType)
    ensures p.color.Tuple? ==>
            (ValidateInput(p) == Accepted <==>
             |p.color.items| == 4 &&
             forall k :: 0 <= k < 4 ==> IsInt(p.color.items[k]) && 0 <= IntValue(p.color.items[k]) <= 255)
    ensures p.color.Tuple? && |p.color.items| != 4 ==> ValidateInput(p) == Rejected(ColorNotFour)
    ensures p.color.Tuple? && |p.color.items| == 4 && !AllInts(p.color.items) ==>
            ValidateInput(p) == Rejected(ColorNotInts)
    ensures p.color.Tuple? && |p.color.items| == 4 && AllInts(p.color.items) &&
            (exists k :: 0 <= k < 4 && !(0 <= IntValue(p.color.items[k]) <= 255)) ==>
            ValidateInput(p) == Rejected(ColorOutOfRange)
  {
  }

  /** Order matters: an out-of-range duration is what gets reported even when
      every later parameter is malformed too. */
  lemma DurationReportedBeforeColor(p: Params)
    requires p.duration == Int(0) && p.color == Tuple([Int(1), Int(2), Int(3)])
    ensures ValidateInput(p) == Rejected(DurationOutOfRange)
    ensures !ColorOk(p.color)
  {
  }
}
