# qpyscript core, modelled in Dafny

qpyscript is a small toolbox of Python 2 helpers for scripts. This project models
its five core modules and proves what their docstrings and code promise.

- **datetools.py**: epoch-aligned time arithmetic. This covers truncating a
  datetime onto a grid of `delta`-sized steps counted from a start instant,
  datetime long division, total seconds and timestamps, and the two
  fixed-width timestamp formats with their fast parsers.
- **timer.py**: `CTimer`, a thread that wakes on every grid point of its
  interval, performs its action, and stops after a budget of iterations or
  when asked. `FuncCTimer` is a `CTimer` whose action is a function call.
- **queues.py**: `PushQueue`, a bounded FIFO queue whose `push` discards the
  oldest item instead of refusing a new one.
- **iterations.py**: iterator building blocks: `accumulate`, `grouper`,
  `mzip`, `pairwise`, `roundrobin`, `sfilter`, `triwise`, `uniquify` and
  `unzip`.
- **console.py**: ANSI terminal control codes (cursor movement, colours,
  readline-safe colour prompts) and the `plusminus` bar.

Modelling choices:

- Instants and durations are integers counting microseconds.
  `timedelta` has the same resolution, so `total_seconds()` arithmetic
  becomes exact. An instant counts from 0001-01-01 00:00:00.
- Python's `%` and `//` are modelled as floored operations (`PyMod`,
  `PyFloorDiv`), for either sign of the divisor.
- A generator or iterator over a finite input is a `seq`.
- `int()` on a string is `Strings.PyInt`. Like Python 2's `int()`, it
  accepts surrounding whitespace, an optional sign, whitespace between the
  sign and the digits, and at least one decimal digit. Anything else is
  `Err(ValueError)`.
- Errors the source raises (`ValueError`, `KeyError`,
  `ZeroDivisionError`, and the `OverflowError` of the `datetime`
  constructor when an argument does not fit a 32-bit C `int`) are `Result`
  values. The exception is a zero
  `delta` or interval: it is a precondition (see "Left out").
- An exception raised by the timer's action is an input too: each `Tick`
  says whether the call raises in that cycle. It is logged as a `Raised`
  event and ends `run`.
- The timer's clock readings, and any `stop()` calls arriving from
  another thread, are an input sequence of `Tick`s. Sleeping and acting
  append events to a log field of the timer object.
- Escape sequences are checked against a small decoder for ECMA-48
  control sequences (section 5.4 of ECMA-48): `Console.ParseCsi` and
  `Console.Visible`. This decoder is independent of the code that builds
  the sequences.

Files: `results.dfy` (error and option values), `strings.dfy` (decimal
digits, padding, `int()`, slicing), `datetools.dfy`, `timer.dfy`,
`queues.dfy`, `iterations.dfy` and `console.dfy`.

## Model

| member | source | states |
|---|---|---|
| Strings.IntToStr | console.py:138 | `str(i)`: a minus sign exactly for negative i, then decimal digits whose value is `abs(i)` |
| Strings.PyInt | console.py:134-137 | `int()` of a string fails only with ValueError, and always on an empty or all-whitespace string |
| Strings.PyIntBound | datetools.py:201-207 | `int()` of a string of at most n characters is less than 10^n in magnitude |
| Strings.PyIntExamples | console.py:134-135 | `int(' 42\n') == 42`, `int('- 5') == -5`, `int('+\t7') == 7`; `'4 2'` and `'-'` are ValueError |
| Strings.DigitsToNatOfNatToStr | datetools.py:201-207 | reading back the decimal digits of n gives n |
| Strings.PadNat | datetools.py:147 | a zero-padded field (`%Y`, `%m`, `%f`…) is all digits with value n, and exactly `width` characters when n fits |
| Strings.PyIntOfIntToStr | console.py:134-137 | `int(str(i)) == i` for every integer, negative ones included |
| Strings.PyIntOfDigits | datetools.py:201-207 | `int()` of a non-empty digit string is its decimal value |
| Strings.Slice | datetools.py:201-206 | Python slice `s[i:j]`: the subsequence when in range, empty when it starts past the end |
| Strings.SliceFrom | datetools.py:207 | Python slice `s[i:]`: the suffix, or empty past the end |
| DateTools.PyMod | datetools.py:126 | Python `%`: the remainder has the divisor's sign and is smaller in magnitude |
| DateTools.PyFloorDiv | datetools.py:67 | `divmod`: `a == b * q + a % b` |
| DateTools.FlooredDivModUnique | datetools.py:67 | quotient and remainder of floored division are the only pair with that equation and remainder range |
| DateTools.OnGridIff | datetools.py:105-107 | an instant is on the grid iff it is `start + k * delta` for some integer k |
| DateTools.GridSpacing | datetools.py:105-107 | distinct grid points are at least one step apart |
| DateTools.Truncated | datetools.py:105-127 | the result is on the grid and `r <= dt < r + delta`; for a negative delta, `r + delta < dt <= r` |
| DateTools.TruncatedIsLatest | datetools.py:105-107 | no grid point later than the result is `<= dt`: it is the latest one |
| DateTools.TruncatedIsEarliestForNegativeStep | datetools.py:126-127 | with a negative delta, `%` rounds up: the result is the earliest grid point `>= dt` |
| DateTools.TruncatedFixesGridPoints | datetools.py:105-127 | a grid point truncates to itself |
| DateTools.TruncatedFixesStart | datetools.py:105-127 | the start instant truncates to itself |
| DateTools.TruncatedIdempotent | datetools.py:105-127 | truncating twice is truncating once |
| DateTools.TruncatedSameCell | datetools.py:105-127 | two instants truncate alike iff no grid point lies in `(t1, t2]` |
| DateTools.DatetimeRounder | datetools.py:40-53 | the rounder maps every instant to its truncation with the given delta and start |
| DateTools.DatetimeDivmod | datetools.py:56-68 | `start + n * delta + rem == dt`, with the remainder in `[0, delta)` (or `(delta, 0]`) |
| DateTools.DatetimeDivmodUnique | datetools.py:56-68 | the pair is unique, and `start + n * delta` is the truncated instant |
| DateTools.TotalMicros | datetools.py:71-89 | `start + total == dt` |
| DateTools.Timestamp | datetools.py:95-97 | converting the timestamp back gives the instant |
| DateTools.Dt | datetools.py:100-102 | the instant's total since 1970-01-01 is the timestamp |
| DateTools.TimestampRoundTrip | datetools.py:92-102 | `dt(timestamp(d)) == d`, `timestamp(dt(t)) == t`, and the epoch's timestamp is 0 |
| DateTools.MakeDateTime | datetools.py:209 | `datetime(*fields)` succeeds iff every field is in range (days per month, leap years); otherwise OverflowError when a field does not fit a C `int`, else ValueError |
| DateTools.DateTimeToStr | datetools.py:147-163 | `datetime2str` gives 26 characters |
| DateTools.FieldsToDateTime | datetools.py:201-209 | a parsed datetime's fields are `int()` of the field strings, its microseconds the last field times the scale; failures are ValueError or OverflowError, and OverflowError exactly when every field reads but one does not fit a C `int` |
| DateTools.FieldsToDateTimeOk | datetools.py:201-209 | fields that parse to a valid datetime's components build that datetime |
| DateTools.PyIntOfPadNat | datetools.py:201-207 | `int()` of a zero-padded field gives back the number |
| DateTools.DateTimeLayout | datetools.py:201-207 | the fixed slices of `str2datetime_fast` pick exactly the seven fields of the layout |
| DateTools.StrToDateTimeFast | datetools.py:201-209 | failures are ValueError or OverflowError, and OverflowError only from an unbounded microseconds field `s[20:]` wider than a C `int`; a string of at most 20 characters has no microseconds field and fails |
| DateTools.ShortFieldsFit | datetools.py:201-206 | the fields read from slices of at most four characters always fit a C `int` |
| DateTools.FieldsFit | datetools.py:201-209 | when every field that reads fits a C `int`, the only failure is ValueError |
| DateTools.StrToDateTimeFastOverflow | datetools.py:207-209 | `str2datetime_fast('2013-02-24 12:37:51.2147483648')` is an OverflowError |
| DateTools.StrToDateTimeFastRoundTrip | datetools.py:150-209 | `str2datetime_fast(datetime2str(d)) == d` for every datetime |
| DateTools.StrToDateTimeFastIgnoresSeparators | datetools.py:201-207 | the parse depends on no separator character: strings differing only there parse alike |
| DateTools.Dt2Utcts | datetools.py:238-240 | `dt2utcts` gives 21 characters |
| DateTools.Dt2UtctsShape | datetools.py:238-240 | the layout is `YYYYMMDD-HH:MM:SS.` then the first three digits of the microseconds |
| DateTools.MillisOfPadded | datetools.py:232-233 | the first three of six microsecond digits read as the milliseconds |
| DateTools.UtcLayout | datetools.py:226-232 | the fixed slices of `utcts2dt` pick exactly the seven fields of the layout |
| DateTools.Utcts2Dt | datetools.py:226-235 | failures are ValueError only, since every slice has at most four characters and so fits a C `int`; a string of at most 18 characters fails; the microseconds are whole milliseconds |
| DateTools.Utcts2DtRoundTrip | datetools.py:212-240 | `utcts2dt(dt2utcts(d))` is d with microseconds truncated to whole milliseconds |
| DateTools.Utcts2DtIgnoresSeparators | datetools.py:226-232 | the parse depends on no separator character; two strings of at least 21 characters that agree on the field positions parse alike whatever their lengths |
| DateTools.Utcts2DtIgnoresTail | datetools.py:226-232 | anything appended after the first 21 characters is ignored |
| DateTools.Utcts2DtAnySeparator | datetools.py:212-235 | any character between date and time parses alike: `-` as written by `dt2utcts`, a space as in the docstring |
| DateTools.TruncatedExamples | datetools.py:46-51 | the rounder docstring examples, plus `12:37:51` truncated to `12:37` and to `12:37:48` by 12 s (lines 120-124) |
| DateTools.DatetimeDivmodExample | datetools.py:62-63 | `datetime_divmod(2000-01-16 01:00, WEEK) == (2, 1 day 3600 s)` |
| DateTools.TotalMicrosExamples | datetools.py:83-87 | 3600 s and 51 s, as in the docstring |
| DateTools.DateTimeToStrExample | datetools.py:160-161 | `'2013-02-24 12:37:51.000000'` |
| DateTools.StrToDateTimeFastExample | datetools.py:195-196 | the docstring string parses to 2013-02-24 12:37:51 |
| DateTools.ExampleDt2Utcts | datetools.py:238-240 | 2013-02-24 12:37:51 formats as `20130224-12:37:51.000` |
| DateTools.Utcts2DtExample | datetools.py:223-224 | `'20130224 12:37:51.000'` parses to 2013-02-24 12:37:51 |
| Timer.Wait | timer.py:47-48 | with a positive interval, the wait is in `(0, interval]` and ends on a grid point; with a negative one it is negative |
| Timer.WaitReachesNextGridPoint | timer.py:47-48 | the wait ends at the first grid point strictly after now |
| Timer.SleepFor | timer.py:35-36 | the sleep is `max(0, delta)`: the wait for a positive interval, 0 for a negative one |
| Timer.Outcome | timer.py:41-42 | the action's event is `Raised` exactly when the called function raises in that cycle (`pass` never does), else `Did` |
| Timer.CycleLog | timer.py:48-50 | each cycle logs two events |
| Timer.Step | timer.py:47-54 | one cycle logs its sleep and the action's outcome and picks up a stop; only a completed action increments the counter and zeroes the budget after a stop; an exception leaves both |
| Timer.FirstStop | timer.py:53-54 | the index of the first cycle during which `stop()` arrives, or the number of readings |
| Timer.FirstFailure | timer.py:50 | the index of the first cycle whose action raises, or the number of readings; never for `pass` |
| Timer.RunFromCycles | timer.py:44-54 | closed form of `run`: the number of cycles (budget, stop, first exception, readings), the counter (the raising cycle not counted), the log, the flag, whether it ended by an exception, and `iterations = 0` after a stop that no exception preempted |
| Timer.CycleLogAt | timer.py:48-50 | cycle k sleeps exactly as `SleepFor` at reading k, then acts or raises |
| Timer.SleepsWithinInterval | timer.py:47-49 | with a positive interval every sleep is in `(0, interval]` |
| Timer.ActionsAppend | timer.py:50 | actions in a concatenated log add up |
| Timer.ActionsOfCycleLog | timer.py:50-51 | each cycle either completes the action once or raises |
| Timer.FailuresOfPrefix | timer.py:50-51 | the cycles `run` starts raise at most once, in the last of them |
| Timer.RunActions | timer.py:50-51 | the completed actions of a run are exactly its counter increments |
| Timer.ExactBudgetWithoutStop | timer.py:45-51 | without a stop, a budget of n (with enough readings) acts exactly `max(0, n)` times, unless the action raises first, which ends the run after the completed ones; the budget is unchanged |
| Timer.StopBeforeRunActsOnce | timer.py:38-39 | a timer stopped before `run` still acts once, then sets `iterations = 0`; if that action raises, the budget is untouched and the run ends |
| Timer.StopDuringCycle | timer.py:53-54 | a stop arriving during cycle k ends the loop after k + 1 actions; an exception at cycle f <= k ends it after f actions with the budget untouched |
| Timer.RaiseEndsRun | timer.py:44-54 | the first exception, at cycle k, ends `run`: k actions completed, the budget untouched, the last event the failure |
| Timer.CounterWithinBudget | timer.py:45-46 | the loop never runs more than its budget |
| Timer.CTimer.constructor | timer.py:20-33 | a non-stopped timer with the given interval, start and budget, an empty log, and its rounder set to the truncation |
| Timer.CTimer.FuncCTimer | timer.py:57-62 | the same with the action `function(*args, **kwargs)`, defaulting to no arguments |
| Timer.CTimer.Sleep | timer.py:35-36 | logs a sleep of `max(0, interval)` |
| Timer.CTimer.Stop | timer.py:38-39 | sets the stop flag |
| Timer.CTimer.Do | timer.py:41-42 | logs one performance of the action (`pass`, or the call of lines 64-65), or its exception, and reports which |
| Timer.CTimer.Run | timer.py:44-54 | the final budget, flag and log, and whether an exception ended the loop, are those of the reference `RunFrom` |
| Queues.Pushed | queues.py:22-33 | push appends x; at a positive capacity a full queue first loses its oldest item; the size never exceeds the capacity |
| Queues.PushedKeepsOrder | queues.py:22-33 | the surviving older items keep their FIFO order, and at most the oldest is dropped |
| Queues.PushQueue.constructor | queues.py:9 | an empty queue of the given capacity (`<= 0` is unbounded) |
| Queues.PushQueue.PutNowait | queues.py:24-26 | refused (`Full`) iff at capacity, else the item is appended |
| Queues.PushQueue.GetNowait | queues.py:27-30 | the oldest item is removed and returned, or `Empty` on an empty queue |
| Queues.PushQueue.Push | queues.py:10-33 | the retry loop leaves the queue as `Pushed` and takes at most two attempts |
| Queues.PushQueue.PushNowait | queues.py:35-37 | the same as `push(item, False)` |
| Iterations.Accumulate | iterations.py:23-42 | the running totals: first item, then `func(previous total, item)`; nothing for an empty input |
| Iterations.AccumulateSums | iterations.py:23-42 | `accumulate(s)` with the default `op.add`: running sums |
| Iterations.AccumulateExamples | iterations.py:34-35 | sums `1 3 6 10 15` and, with `op.mul`, products `1 2 6 24 120` |
| Iterations.Zip2 | iterations.py:96-98 | `izip` of two: pairs up to the shorter length |
| Iterations.Zip3 | iterations.py:164-168 | `izip` of three: triples up to the shortest length |
| Iterations.Drop | iterations.py:97 | skipping k items: the rest, index by index |
| Iterations.Pairwise | iterations.py:85-98 | every pair of neighbours, in order |
| Iterations.Triwise | iterations.py:153-168 | every triple of neighbours, in order |
| Iterations.PairwiseExample | iterations.py:94 | `pairwise([0, 1, 2, 3])` |
| Iterations.TriwiseExample | iterations.py:162 | `triwise([0, 1, 2, 3, 4])` |
| Iterations.Grouper | iterations.py:50-65 | every chunk has length n; no chunks when n <= 0 |
| Iterations.GrouperLength | iterations.py:64-65 | `len(s) // n` chunks: an incomplete tail is dropped |
| Iterations.GrouperChunkAt | iterations.py:64-65 | chunk i is `s[i*n:(i+1)*n]` |
| Iterations.GrouperExample | iterations.py:62 | `grouper('ABCDEFG', 3)` gives ABC, DEF |
| Iterations.MinLen | iterations.py:221 | the length of the shortest column, a lower bound on every length |
| Iterations.MinLenIsAttained | iterations.py:221 | some column has exactly that length |
| Iterations.ZipN | iterations.py:221 | `izip(*cols)`: as many rows as the shortest column, each as wide as the number of columns |
| Iterations.ZipNAt | iterations.py:221 | row i, column j is `cols[j][i]` |
| Iterations.Unzip | iterations.py:204-221 | as many tuples as the shortest zipped item |
| Iterations.UnzipZip | iterations.py:204-221 | unzipping a zip gives back the columns cut to the common length (nothing when it is 0) |
| Iterations.ZipNInvolution | iterations.py:218-221 | zipping a rectangle twice gives it back |
| Iterations.UnzipExample | iterations.py:213-216 | `unzip(zip(xrange(3), xrange(2, 5)))` |
| Iterations.Filter | iterations.py:140 | only items satisfying the predicate, taken from the input |
| Iterations.Kept | iterations.py:140 | the increasing indices of exactly the items satisfying the predicate |
| Iterations.FilterIsKept | iterations.py:140 | the filter keeps the items at those indices, in order |
| Iterations.Sfilter | iterations.py:121-140 | no columns, or one per input |
| Iterations.SfilterKeepsRows | iterations.py:121-140 | the output column c at position j is input column c at the j-th kept row; empty iff no row is kept |
| Iterations.SfilterExample | iterations.py:134-138 | dropping the rows holding `None` leaves `(1, 2), (7, 3), (4, 5)` |
| Iterations.Dict | iterations.py:82 | `dict(pairs)` has exactly the pairs' keys |
| Iterations.DictAt | iterations.py:82 | with distinct keys each key maps to its own value |
| Iterations.ItemKeys | iterations.py:81 | the keys of `iteritems()`, in order |
| Iterations.ItemValues | iterations.py:81 | the values of `iteritems()`, in order |
| Iterations.Mzip | iterations.py:68-82 | ValueError iff the mapping is empty; otherwise as many dicts as the shortest value |
| Iterations.MzipAt | iterations.py:68-82 | dict i has every key, mapped to that key's value at position i; the shortest value sets the length |
| Iterations.MzipExample | iterations.py:78-79 | the docstring's three-key example |
| Iterations.UniquifiedSpec | iterations.py:178-201 | no repeats, only input items, every input item |
| Iterations.UniquifiedOrder | iterations.py:178-201 | order-preserving: items appear in the order of their first occurrence |
| Iterations.FirstIndex | iterations.py:195-199 | the first position of x |
| Iterations.Uniquify | iterations.py:194-201 | the loop with its `seen` set yields exactly `Uniquified` |
| Iterations.UniquifiedPrefixStep | iterations.py:195-199 | one more item is yielded iff it was not seen |
| Iterations.UniquifyExample | iterations.py:188-189 | `[1, 2, 2, 3, 3, 5, 1, 4, 5, 4]` gives `[1, 2, 3, 5, 4]` |
| Iterations.CycleThrough | iterations.py:111-118 | one pass of the cycle takes every head, then goes on with the tails |
| Iterations.CycleIsRounds | iterations.py:107-118 | the recipe's cycle that drops exhausted iterators equals round by round heads |
| Iterations.RoundRobin | iterations.py:107-118 | the loop yields exactly `Rounds` |
| Iterations.RoundsMultiset | iterations.py:107-118 | every item of every input is yielded exactly once |
| Iterations.RoundsUniformLength | iterations.py:107-118 | with inputs of equal length n there are `n * len(inputs)` items |
| Iterations.RoundsUniformAt | iterations.py:107-118 | with equal lengths, item `r * len(inputs) + i` is input i's item r |
| Iterations.HeadsTailsFilter | iterations.py:107-118 | when at most one input has items satisfying p, one round's p-items then the tails' are the inputs' p-items in order |
| Iterations.TailsAlone | iterations.py:107-118 | a round keeps the p-items within at most one input |
| Iterations.RoundsFilter | iterations.py:107-118 | for inputs of any lengths, round-robin takes the p-items of the one input holding them in their order |
| Iterations.RoundsMap | iterations.py:107-118 | round-robin commutes with mapping the items |
| Iterations.RoundsKeepsEachInput | iterations.py:107-118 | for inputs of any lengths, with items labelled by input: dropping the labels gives round-robin, and the items taken from input i are input i's, in order |
| Iterations.RoundRobinExample | iterations.py:108 | `roundrobin('ABC', 'D', 'EF')` gives `ADEBFC` |
| Console.ParseCsi | console.py:92-95 | a decoded control sequence is exactly introducer, parameters, intermediates and a final byte |
| Console.ParseCsiOf | console.py:92-95 | every well-formed sequence decodes to its parts |
| Console.VisibleAfterCsi | console.py:92-95 | a control sequence prints nothing |
| Console.VisiblePlain | console.py:92-95 | text without ESC prints as itself |
| Console.CsiIsControlSequence | console.py:94-95 | `csi(n, f)` with n >= 0 is a control sequence with parameter n, invisible on screen |
| Console.MovementSequences | console.py:99-120 | up, down, right, left, next and prev are CUU, CUD, CUF, CUB, CNL and CPL with parameter n |
| Console.MovementDefaults | console.py:99-120 | by default each moves by one |
| Console.FixedSequences | console.py:124-171 | the exact codes of bold, nocolor/reset/normal, underline, clear_line and clear_screen |
| Console.ColorIndex | console.py:132-137 | the lookup order: an int as given, else `int(clr)`, the name table only when `int()` fails, KeyError for an unknown name (cases in ColorOfName, ColorOfNumericString, ColorOfUnknownName) |
| Console.Color | console.py:132-140 | succeeds exactly when the index does, else KeyError; decoded in ColorIsSgr |
| Console.SgrIsControlSequence | console.py:138-140 | the colour code is a control sequence with parameters `30 + i` (and `;1`) |
| Console.ColorIsSgr | console.py:132-140 | every resolvable colour decodes that way |
| Console.ColorOfName | console.py:128-137 | a named colour uses its table number |
| Console.ColorOfUnknownName | console.py:134-137 | a lower-case word outside the table is refused by `int()` and by the table: KeyError |
| Console.ColorOfNumericString | console.py:135 | a numeric string is the same colour as the number |
| Console.RedIsSgr31 | console.py:128-140 | `color('red') == '\x1b[31m'` |
| Console.XColorIsSgr | console.py:154-157 | `xcolor(clr)` is the 256-colour SGR `38;5;clr`, invisible on screen |
| Console.ReadlineCounted | console.py:160-162 | readline counts at most every character |
| Console.ReadlineCountsPlain | console.py:160-162 | text without START_IGNORE is counted in full |
| Console.ReadlineHides | console.py:160-162 | a `\001 … \002` span is not counted |
| Console.ColorPromptWidth | console.py:160-162 | readline counts exactly the prompt text s |
| Console.TruncDiv | console.py:179-180 | `int()` of a quotient: truncation toward zero, with its sign and bounds for every sign of both operands |
| Console.BarCounts | console.py:179-180 | each count is exactly `min(int(width * count / maxt), count)` |
| Console.PlusMinus | console.py:178-186 | ZeroDivisionError iff `maxt == 0` |
| Console.BarColors | console.py:181-182 | `color('green')` and `color('red')` are SGR 32 and SGR 31 |
| Console.BarCodes | console.py:181-184 | the bar is `color('green')`, the `+` signs, `nocolor()`, `color('red')`, the `-` signs, `nocolor()`, then the padding |
| Console.PlusMinusCodes | console.py:178-186 | `plusminus` is that bar for the scaled counts, with `width - (pluses + minuses)` spaces when padded |
| Console.BarVisible | console.py:181-183 | on screen the bar is the plus signs, the minus signs, then the padding |
| Console.PlusMinusVisible | console.py:178-186 | on screen `plusminus` is exactly the scaled `+` and `-` runs and, when padded, the spaces |
| Console.BarCountsFit | console.py:179-180 | when `plus + minus <= maxt` the signs fit the width |
| Console.BarFits | console.py:184-186 | then a padded bar is exactly `width` characters on screen |

## Left out

- Threads: `CTimer` is a `threading.Thread`. The model gives `run` its clock readings and the moments `stop()` arrives as a sequence of ticks. Thread start, `name` and `daemon` are not modelled.
- Timer.CTimer.Run: does one cycle per clock reading, so an unbounded budget is observed only up to the number of readings given.
- Timer.CTimer.constructor: requires a non-zero interval. With a zero interval the source builds the timer and raises ZeroDivisionError on the first truncation in `run`.
- Intervals and durations are whole microseconds. `timedelta(seconds=float)` rounding of a fractional interval is not modelled.
- Floating point: `total_seconds()` and `plusminus`'s `width * 1.0 * plus / maxt` are exact integer arithmetic here. `int()` of the float quotient is truncation toward zero (`Console.TruncDiv`).
- DateTools.DateTimeToStr: a pure zero-padding formatter. Python 2 `strftime` refuses years before 1900, and this is not modelled.
- `str2datetime` (strptime), `ny_dt` (pytz time zones), `now` and `utcnow` (the clock) are not modelled.
- Strings.PyInt: models `int()` of a byte string (ASCII whitespace, sign, decimal digits). `int()` of a `unicode` string, which also accepts non-ASCII digits and spaces, is not modelled.
- DateTools.Truncated: requires a non-zero delta, where the source raises ZeroDivisionError from `%`. The same precondition is on DateTools.DatetimeRounder, DateTools.DatetimeDivmod, Timer.Wait and Timer.SleepFor.
- DateTools.Truncated: instants are unbounded integers. The OverflowError that `datetime` arithmetic raises outside 0001-01-01 … 9999-12-31 is not modelled.
- DateTools.Dt: the instant is not checked against the `datetime` range, so the OverflowError of a timestamp outside it is not modelled.
- DateTools.TimestampRoundTrip: holds for every integer instant, including ones outside the `datetime` range where the source would raise OverflowError.
- DateTools.Dt2Utcts: a zero-padding formatter. Python 2 `strftime` raises ValueError for years before 1900, and this is not modelled.
- Timer.CTimer.Run: an exception from the action is logged and reported by the returned flag. Its propagation out of the thread, with its traceback, is not modelled.
- Iterations.Accumulate: `func` is a parameter without a default, since a generic item type has no `+`. The `op.add` default is Iterations.AccumulateSums on integers.
- Queues.PushQueue.Push: only the non-blocking form (`block=False`) is modelled. The blocking form with a timeout, and the queue's locks and condition variables, are not.
- Iterations: the generators are modelled on finite sequences. Laziness and infinite iterables are not modelled.
- Iterations.Uniquify: the branch for unhashable items (TypeError, yielded every time) is not modelled; items are always comparable.
- Iterations.Mzip and Iterations.ZipN: all values have one element type. Heterogeneous tuples are not modelled.
- `append`, `powerset`, `substrings`, `subtuples`, `nwise` and `transpose` are not modelled. They call names the module does not define (`chain`, `combinations`, `islice`) or are incomplete.
- Console.ColorIndex: colour arguments are an int or a string. Other Python types passed to `int()` are not modelled.
- Console.ColorPromptWidth: stated for prompt text without `\001`.
- `read_noblock`, `_clear_screen` (terminal I/O) and `clear_repr` (Python `repr`) are not modelled.
- qpyscript.py and argparsing.py are not part of this model.
