# subtitlegen clock arithmetic and range partitioning, in Dafny

subtitlegen turns a CSV of `distance, time` rows into a SubRip (SRT) subtitle track. Its core is
two small classes in `subtitlegen.py`:

- `Timestamp`: hours, minutes, seconds and milliseconds. It is built by parsing CSV text
  or by `from_ms` from a millisecond count. It converts back with `to_ms`, adds an integer or
  another Timestamp with `+`, and renders as `HH:MM:SS,mmm`.
- `Timerange`: a pair of Timestamps. Its length is in milliseconds. `partition(n)` splits it
  into `n` consecutive sub-ranges, each ending one millisecond before the next begins.

This project models that core and proves what the code guarantees.

Files:

- `failures.dfy` (module `Failures`): the exceptions the core raises (`Error`), and `Result`
  and `Option`.
- `decimal.dfy` (module `Decimal`): decimal digit strings. `Value` is what `int()` reads from
  a matched group. `Padded` is what `'{:0Nd}'.format` writes, with Python's sign handling.
- `timestamp.dfy` (module `Timestamps`): the `Timestamp` datatype, `ToMs`, and `FromMs` both
  as a function and as the step-by-step method `FromMsSteps`. Also `Parse` (the constructor),
  `Add` (`__add__`), `Format` (`__str__`) and `OneMillisecond`.
- `timerange.dfy` (module `Timeranges`): the `Timerange` datatype, `MakeTimerange` (the
  constructor) and `Len` (`len()`). Also `Slices`/`Partition`, the generator as a function,
  and `PartitionSteps`, the generator loop as a method.

Behaviour as the code has it:

- The parser reads the legacy CSV token `MM:SS:ll`, not `HH:MM:SS,mmm`. The regular expression
  is matched at the start of the text only, and anything after the eighth character is ignored.
  Hours are always 0, and the third group becomes milliseconds in 0..59, as the docstring at
  subtitlegen.py:100 says.
- So parsing the rendering of a timestamp does not give it back. `ParseFormatShifts` proves
  exactly what happens: hours, minutes and seconds are read as minutes, seconds and milliseconds.
- `from_ms` refuses only counts above 215 999 999 (59:59:59,999). A negative count is accepted
  and gives negative hours, with the other fields in range under floor division. The error
  message at subtitlegen.py:121 names a lower bound of 00:00:00,000 that is never checked.
- `partition(n)` divides the length by `n` as a float, `delta`, and never rounds it. Each
  boundary, `begin.to_ms() + delta - 1` for an end and `begin.to_ms() + delta` for the next
  begin, is truncated toward zero by the `long()` inside `from_ms`. The model keeps `delta`
  an exact rational and truncates each boundary (`SliceEnd`, `SliceNext`, through
  `TruncatedQuotient`). That differs from truncating `delta` first. For begin 0, length 1 and
  n = 2, the first end is `long(-0.5)` = 0, not -1. When the range lies within
  0..215 999 999 and either starts after 0 or is at least `n` ms long, no boundary is
  negative. Each truncation is then floor division, so every step is `length div n` and the
  remainder `length mod n` is dropped at the tail.
- A range that ends before it begins is accepted by the constructor. It fails on the first
  `len()`, which `partition` calls before anything else.
- `partition(0)` raises `ZeroDivisionError`. A negative `n` yields nothing.

## Model

| member | source | states |
|---|---|---|
| Timestamps.ToMs | subtitlegen.py:131-139 | the linear sum of the fields; NormalToMsBound, FromMsToMs and ToMsInjective prove that it is a bijection from normal timestamps onto the counts up to 215 999 999 |
| Timestamps.FromMs | subtitlegen.py:113-129 | refuses exactly the counts above 215 999 999, with OutOfRange; otherwise gives normal fields (minutes, seconds < 60, milliseconds < 1000, hours <= 59) whose `to_ms` is the count, with hours non-negative exactly when the count is |
| Timestamps.FromMsSteps | subtitlegen.py:118-128 | the field-by-field assignment with a shrinking `current` computes the same result as FromMs, refusal included |
| Timestamps.FromMsToMs | subtitlegen.py:113-139 | `from_ms(to_ms(t)) == t` for every normal timestamp: the decomposition inverts the sum |
| Timestamps.ToMsInjective | subtitlegen.py:131-139 | two normal timestamps with the same `to_ms` are equal |
| Timestamps.NormalToMsBound | subtitlegen.py:120-139 | `to_ms` of a normal timestamp never exceeds the cap, and is non-negative exactly when its hours are |
| Timestamps.MatchesPattern | subtitlegen.py:105-106 | the anchored `re.match` of three `[0-5][0-9]` groups separated by `:`; Parse succeeds exactly on it, and ParseIgnoresRest and ParseOnlyLegacyText show it reads only the first eight characters |
| Timestamps.Parse | subtitlegen.py:104-111 | succeeds exactly when the text begins with three `[0-5][0-9]` fields separated by `:`, else Unparsable; the result has hours 0, milliseconds below 60, and `to_ms` = ll + 1000·SS + 60000·MM |
| Timestamps.DefaultIsZero | subtitlegen.py:104 | the constructor's default text `00:00:00` denotes the zero timestamp |
| Timestamps.ParseIgnoresRest | subtitlegen.py:105 | only the first eight characters decide the parse; whatever follows is ignored |
| Timestamps.ParsedIsNormalized | subtitlegen.py:104-139 | `from_ms(to_ms(p))` reproduces every parsed timestamp `p` |
| Timestamps.ParseLegacyText | subtitlegen.py:99-111 | the `MM:SS:ll` rendering of any timestamp with hours 0 and fields below 60, followed by anything, parses back to it |
| Timestamps.ParseOnlyLegacyText | subtitlegen.py:105-111 | conversely, a text that parses begins with the `MM:SS:ll` rendering of its result |
| Timestamps.Add | subtitlegen.py:141-146 | an integer or Timestamp operand succeeds exactly when the millisecond sum is within the cap, giving the normal timestamp with that count; any other operand raises BadOperand, an oversized sum OutOfRange |
| Timestamps.AddZero | subtitlegen.py:142-143 | adding 0 ms returns a normal timestamp unchanged |
| Timestamps.AddTimestampIsAddCount | subtitlegen.py:141-145 | adding timestamps commutes, and adding a timestamp equals adding its `to_ms` as an integer |
| Timestamps.AddTwice | subtitlegen.py:142-143 | after a successful addition of a, adding b equals adding a + b at once |
| Timestamps.OneMillisecondIsFromMs | subtitlegen.py:155 | `ONE_MILLISECOND` is `from_ms(1)`, the timestamp 00:00:00,001 |
| Timestamps.Format | subtitlegen.py:148-150 | `'{:02d}:{:02d}:{:02d},{:03d}'` of the four fields; FormatReadsBack, FormatInjective and ParseFormatShifts state what it produces |
| Timestamps.FormatReadsBack | subtitlegen.py:148-150 | a normal timestamp with non-negative hours renders as 12 characters `HH:MM:SS,mmm` whose digit groups read back as its four fields |
| Timestamps.FormatInjective | subtitlegen.py:148-150 | two such timestamps with the same rendering are equal |
| Timestamps.ParseFormatShifts | subtitlegen.py:104-111 | parsing the rendering of `t` gives hours 0, minutes = t.hours, seconds = t.minutes, milliseconds = t.seconds |
| Timestamps.ParseFormatFixesOnlyZero | subtitlegen.py:104-111 | parsing the rendering gives the timestamp back exactly when it is zero |
| Timestamps.DocumentationExample | subtitlegen.py:19-31 | CSV token `34:39:00` renders as `00:34:39,000` |
| Decimal.Value | subtitlegen.py:109-111 | `int()` of a matched digit group; FieldValue, TwoDigitValue and PaddedReadsBack pin it on two and three digits |
| Decimal.Padded | subtitlegen.py:149-150 | `'{:0Nd}'` with Python's sign-before-zeros padding; PaddedReadsBack proves width and value for the fields `__str__` prints |
| Decimal.Digits | subtitlegen.py:149-150 | the decimal rendering of a natural number is a non-empty digit string whose value is the number, with at most 2 or 3 digits below 100 or 1000 |
| Decimal.PaddedReadsBack | subtitlegen.py:149-150 | `{:02d}` and `{:03d}` of a number below 100 or 1000 is exactly 2 or 3 digits whose value is the number |
| Timeranges.MakeTimerange | subtitlegen.py:61-67 | succeeds exactly when both ends are Timestamps, keeping them unchanged; otherwise MissingEnds when both are falsy, else NotTimestamps |
| Timeranges.Len | subtitlegen.py:69-73 | `len()` succeeds exactly when begin <= end in milliseconds, and then begin + length = end; otherwise NegativeLength |
| Timeranges.TruncatedQuotient | subtitlegen.py:119 | `long()` of the exact quotient p / q; TruncatedQuotientBounds states it is truncation toward zero |
| Timeranges.TruncatedQuotientBounds | subtitlegen.py:87-89 | `long()` of the quotient leaves a remainder smaller than the divisor with the dividend's sign: truncation toward zero |
| Timeranges.Slices | subtitlegen.py:86-89 | the generator's remaining iterations from a current begin; SlicesUnfold gives one iteration, SlicesShape the closed form |
| Timeranges.Partition | subtitlegen.py:80-89 | `partition(n)` as its finished run: len() first, then the division by n, then n iterations; PartitionSteps is proved equal to it and the Partition lemmas below give its shape |
| Timeranges.PartitionSteps | subtitlegen.py:80-89 | the generator loop produces exactly the yields and the exception of the generator function; a reversed range gives NegativeLength, n = 0 DivisionByZero, n < 0 nothing, all before any yield |
| Timeranges.SlicesUnfold | subtitlegen.py:86-89 | one iteration: a failing end stops before the yield, a failing next begin stops after it, otherwise the run continues from the next begin |
| Timeranges.SlicesShape | subtitlegen.py:84-89 | with non-negative boundaries within the cap, the generator yields all its ranges without failing, the first at the given begin, each `step` apart and spanning `step - 1` ms, every boundary but the first begin a normal timestamp |
| Timeranges.PartitionShape | subtitlegen.py:80-89 | for n >= 1 and a range within the cap, at least n ms long or starting after 0: exactly n ranges, no failure, the first beginning at the range's begin, the i-th from begin + i·step to begin + (i+1)·step - 1 with step = length div n; every end, and every begin after the first, is a normal timestamp |
| Timeranges.PartitionBoundaries | subtitlegen.py:87-89 | the i-th yielded end is exactly `from_ms(begin + (i+1)·step - 1)` and, for i > 0, the i-th begin is exactly `from_ms(begin + i·step)` |
| Timeranges.PartitionContiguous | subtitlegen.py:87-89 | each sub-range ends exactly `ONE_MILLISECOND` before the next begins |
| Timeranges.PartitionRangesInside | subtitlegen.py:84-89 | with length >= n, step >= 1, and every sub-range has `len()` = step - 1 and lies within the partitioned range |
| Timeranges.PartitionDropsRemainder | subtitlegen.py:84-89 | the gap between the last sub-range's end and the range's end is 1 ms plus length mod n, which is below n |
| Timeranges.PartitionShortRange | subtitlegen.py:84-89 | a range shorter than n ms starting after 0 gives n reversed ranges from begin to begin - 1, each failing `len()` |
| Timeranges.PartitionEmptyRangeAtZero | subtitlegen.py:84-89 | a zero-length range at 0 in one piece yields the range from its begin to `from_ms(-1)` = -1:59:59,999 |

## Left out

- `main()` (subtitlegen.py:158-214) is left out. It does argument parsing, CSV reading,
  printing to stdout and stderr, and the exit status. It prints the whole range's begin and
  end for every sub-range rather than the sub-range's. Without partitioning it prints the next
  row's time as the end, not one millisecond before it as the module documentation shows.
- `Timerange.length(unit='seconds')` (subtitlegen.py:75-78) is a float division and is left
  out. The milliseconds unit returns `len(self)`, which is `Len`.
- `Timerange.__str__` and the two `__repr__` methods (subtitlegen.py:91-96, 152-153) are
  left out. They are float formatting and debugging aids.
- Timeranges.Partition: the default `n=10` of `partition` (subtitlegen.py:80) is not modelled.
  `n` is always an argument, and the only caller, `main`, always passes it
  (subtitlegen.py:188). `Partition(range, 10)` is the default call.
- Timeranges.Partition: the float `len(self) / n` is replaced by the exact rational quotient.
  The rounding of a double for extreme `n` is not modelled.
- Timeranges.PartitionSteps: the generator is modelled by its completed run, meaning the
  ranges yielded and the exception that ends it. Interleaving with the consumer between
  yields is not modelled.
- Timestamps.Parse: the argument is text. A non-string argument makes `re.match` raise
  `TypeError`, and that is not modelled.
- Timestamps.Add: Python's `bool` is an `int`, so `True` and `False` are `IntOperand(1)` and
  `IntOperand(0)`. `long` and `int` are one operand kind, because integers are unbounded here.
- Timestamps.FromMs takes an integer count. The `long()` truncation of the float counts that
  `partition` passes is done before the call, by `TruncatedQuotient`.
- Timestamp attributes can be reassigned in Python. Only `from_ms` does so, on a fresh
  object. The model treats Timestamp as an immutable value.
- csvtosrt.py is not part of this model. It is file I/O, `datetime` parsing and formatting,
  and commented-out library calls.
