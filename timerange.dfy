/** The `Timerange` of subtitlegen: a pair of Timestamps, its length in milliseconds and
    its partition into `n` consecutive sub-ranges. */
module Timeranges {
  import opened Failures
  import opened Timestamps

  datatype Timerange = Timerange(begin: Timestamp, end: Timestamp)

  /** A constructor argument, by its Python type and truthiness (None is a falsy other). */
  datatype Argument = IntArgument(i: int) | TimestampArgument(t: Timestamp) | OtherArgument(truthy: bool)

  /** Python truthiness; Timestamp defines neither `__len__` nor `__nonzero__`, so it is always true. */
  predicate Truthy(a: Argument) {
    match a
    case IntArgument(i) => i != 0
    case TimestampArgument(_) => true
    case OtherArgument(truthy) => truthy
  }

  /** `Timerange(begin=..., end=...)`: both ends must be Timestamps; when both are falsy the
      error names the missing ends. The order of the ends is not checked. */
  function MakeTimerange(begin: Argument, end: Argument): (r: Result<Timerange>)
    ensures r.Ok? <==> begin.TimestampArgument? && end.TimestampArgument?
    ensures r.Ok? ==> r.value.begin == begin.t && r.value.end == end.t
    ensures r.Err? ==> r.error == if !Truthy(begin) && !Truthy(end) then MissingEnds else NotTimestamps
  {
    if !Truthy(begin) && !Truthy(end) then Err(MissingEnds)
    else if !(begin.TimestampArgument? && end.TimestampArgument?) then Err(NotTimestamps)
    else Ok(Timerange(begin.t, end.t))
  }

  /** `len(range)`: `__len__` is `end.to_ms() - begin.to_ms()`, and Python's len() refuses
      a negative answer. */
  function Len(range: Timerange): (r: Result<nat>)
    ensures r.Ok? <==> ToMs(range.begin) <= ToMs(range.end)
    ensures r.Ok? ==> ToMs(range.begin) + r.value == ToMs(range.end)
    ensures r.Err? ==> r.error == NegativeLength
  {
    if ToMs(range.end) < ToMs(range.begin) then Err(NegativeLength)
    else Ok(ToMs(range.end) - ToMs(range.begin))
  }

  /** `long(x)` for the exact quotient x = p / q: truncation toward zero. */
  function TruncatedQuotient(p: int, q: int): int
    requires q > 0
  {
    if p >= 0 then p / q else -((-p) / q)
  }

  /** The truncated quotient leaves a remainder with the sign of the dividend, smaller than the divisor. */
  lemma TruncatedQuotientBounds(p: int, q: int)
    requires q > 0
    ensures var r := TruncatedQuotient(p, q);
      && (0 <= p ==> 0 <= p - q * r < q)
      && (p < 0 ==> -q < p - q * r <= 0)
  {
  }

  /** A positive multiple of a positive number is at least that number. */
  lemma {:induction false} MultipleAtLeast(n: int, d: int)
    requires n > 0 && d >= 1
    ensures n * d >= n
    decreases d
  {
    if d > 1 {
      MultipleAtLeast(n, d - 1);
      assert n * d == n * (d - 1) + n;
    }
  }

  /** Euclidean division is determined by its quotient-remainder equation. */
  lemma QuotientUnique(a: int, n: int, q: int, r: int)
    requires n > 0 && 0 <= r < n && a == n * q + r
    ensures a / n == q
  {
    var q', r' := a / n, a % n;
    assert a == n * q' + r' && 0 <= r' < n;
    if q' > q {
      assert n * q' == n * q + n * (q' - q);
      MultipleAtLeast(n, q' - q);
    } else if q' < q {
      assert n * q == n * q' + n * (q - q');
      MultipleAtLeast(n, q - q');
    }
  }

  /** Dividing a non-negative number by a positive one gives a non-negative quotient. */
  lemma QuotientNonnegative(a: nat, n: int)
    requires n > 0
    ensures a / n >= 0
  {
  }

  /** Quotient and remainder recompose the dividend. */
  lemma QuotientRemainder(a: int, n: int)
    requires n > 0
    ensures a == n * (a / n) + a % n && 0 <= a % n < n
  {
  }

  /** Floor division absorbs a multiple of the divisor. */
  lemma QuotientShift(c: int, length: int, n: int)
    requires n > 0
    ensures (n * c + length) / n == c + length / n
  {
    var q, r := length / n, length % n;
    assert n * c + length == n * (c + q) + r;
    QuotientUnique(n * c + length, n, c + q, r);
  }

  /** What the generator has produced when it stops: the ranges yielded so far, and the
      exception it raised, if any. */
  datatype Yield = Yield(ranges: seq<Timerange>, failure: Option<Error>)

  function Prepend(prefix: seq<Timerange>, y: Yield): Yield {
    Yield(prefix + y.ranges, y.failure)
  }

  /** `long(begin + delta - 1)` for the current begin `b` and delta = length / n. */
  function SliceEnd(b: int, length: int, n: int): int
    requires n > 0
  {
    TruncatedQuotient(n * b + length - n, n)
  }

  /** `long(begin + delta)`, the next begin. */
  function SliceNext(b: int, length: int, n: int): int
    requires n > 0
  {
    TruncatedQuotient(n * b + length, n)
  }

  /** The generator from a current `begin` with `left` iterations to go. `delta` is
      `length / n`, kept exact as a rational: the end is `long(begin + delta - 1)` and the
      next begin `long(begin + delta)`, both through `from_ms`. */
  function Slices(begin: Timestamp, length: nat, n: nat, left: nat): Yield
    requires n > 0
    decreases left
  {
    if left == 0 then Yield([], None)
    else
      var b := ToMs(begin);
      match FromMs(SliceEnd(b, length, n))
      case Err(e) => Yield([], Some(e))
      case Ok(end) =>
        var rest :=
          match FromMs(SliceNext(b, length, n))
          case Err(e) => Yield([], Some(e))
          case Ok(next) => Slices(next, length, n, left - 1);
        Prepend([Timerange(begin, end)], rest)
  }

  /** One iteration of the generator: a failing end stops it before the yield, a failing
      next begin stops it after the yield, and otherwise it goes on from the next begin. */
  lemma SlicesUnfold(begin: Timestamp, length: nat, n: nat, left: nat)
    requires n > 0 && left > 0
    ensures var b := ToMs(begin);
      var end, next := FromMs(SliceEnd(b, length, n)), FromMs(SliceNext(b, length, n));
      Slices(begin, length, n, left)
        == if end.Err? then Yield([], Some(end.error))
           else if next.Err? then Yield([Timerange(begin, end.value)], Some(next.error))
           else Prepend([Timerange(begin, end.value)], Slices(next.value, length, n, left - 1))
  {
  }

  /** `partition(n)`: len() first, then the division by `n`, then `n` iterations
      (none when `n` is negative). */
  function Partition(range: Timerange, n: int): Yield {
    match Len(range)
    case Err(e) => Yield([], Some(e))
    case Ok(length) =>
      if n == 0 then Yield([], Some(DivisionByZero))
      else if n < 0 then Yield([], None)
      else Slices(range.begin, length, n, n)
  }

  /** The generator loop of `partition`, reassigning `begin` on every iteration. */
  method PartitionSteps(range: Timerange, n: int) returns (yielded: seq<Timerange>, failure: Option<Error>)
    ensures Yield(yielded, failure) == Partition(range, n)
    ensures ToMs(range.end) < ToMs(range.begin) ==> yielded == [] && failure == Some(NegativeLength)
    ensures ToMs(range.begin) <= ToMs(range.end) && n == 0 ==> yielded == [] && failure == Some(DivisionByZero)
    ensures ToMs(range.begin) <= ToMs(range.end) && n < 0 ==> yielded == [] && failure == None
  {
    yielded, failure := [], None;
    var length := Len(range);
    if length.Err? {
      failure := Some(length.error);
      assert Yield(yielded, failure) == Partition(range, n);
      return;
    }
    if n == 0 {
      failure := Some(DivisionByZero);
      assert Yield(yielded, failure) == Partition(range, n);
      return;
    }
    var begin := range.begin;
    var i := 0;
    while i < n
      invariant 0 <= i && (n < 0 ==> i == 0 && yielded == []) && (n > 0 ==> i <= n)
      invariant failure == None
      invariant n > 0 ==> Partition(range, n) == Prepend(yielded, Slices(begin, length.value, n, n - i))
    {
      var b := ToMs(begin);
      SlicesUnfold(begin, length.value, n, n - i);
      var end := FromMs(SliceEnd(b, length.value, n));
      if end.Err? {
        failure := Some(end.error);
        assert yielded + [] == yielded;
        return;
      }
      ghost var before := yielded;
      yielded := yielded + [Timerange(begin, end.value)];
      var next := FromMs(SliceNext(b, length.value, n));
      if next.Err? {
        failure := Some(next.error);
        return;
      }
      assert Partition(range, n) == Prepend(yielded, Slices(next.value, length.value, n, n - i - 1)) by {
        var rest := Slices(next.value, length.value, n, n - i - 1);
        assert before + ([Timerange(begin, end.value)] + rest.ranges) == yielded + rest.ranges;
      }
      begin := next.value;
      i := i + 1;
    }
    assert n > 0 ==> yielded + [] == yielded;
    assert Yield(yielded, failure) == Partition(range, n);
  }

  /** One iteration of the generator when its boundaries are non-negative: the range from
      `begin` to `b + step - 1`, then the rest from `b + step`. */
  lemma SlicesStep(begin: Timestamp, length: nat, n: nat, left: nat)
    requires n > 0 && left > 0
    requires 0 <= ToMs(begin) && (n <= length || 1 <= ToMs(begin))
    requires ToMs(begin) + length / n <= MaxMs
    ensures var b, step := ToMs(begin), length / n;
      && FromMs(b + step - 1).Ok? && FromMs(b + step).Ok?
      && Slices(begin, length, n, left)
         == Prepend([Timerange(begin, FromMs(b + step - 1).value)], Slices(FromMs(b + step).value, length, n, left - 1))
  {
    var b, step := ToMs(begin), length / n;
    QuotientShift(b - 1, length, n);
    QuotientShift(b, length, n);
    assert n * (b - 1) + length == n * b + length - n;
    assert SliceEnd(b, length, n) == b + step - 1;
    assert SliceNext(b, length, n) == b + step;
  }

  /** Ranges laid end to end with a one-millisecond gap: each spans `step` milliseconds
      less the gap, and each begins `step` after the one before. */
  predicate Progression(rs: seq<Timerange>, step: int) {
    && (forall j :: 0 <= j < |rs| ==> ToMs(rs[j].end) == ToMs(rs[j].begin) + step - 1)
    && (forall j :: 0 < j < |rs| ==> ToMs(rs[j].begin) == ToMs(rs[j - 1].begin) + step)
  }

  /** A range of the right span, put `step` before a progression, extends it. */
  lemma ProgressionCons(first: Timerange, rest: seq<Timerange>, step: int)
    requires ToMs(first.end) == ToMs(first.begin) + step - 1
    requires rest != [] ==> ToMs(rest[0].begin) == ToMs(first.begin) + step
    requires Progression(rest, step)
    ensures Progression([first] + rest, step)
  {
    var rs := [first] + rest;
    forall j | 0 < j < |rs|
      ensures rs[j] == rest[j - 1]
    {
    }
  }

  /** Every end, and every begin after the first, is a timestamp `from_ms` built: the
      first begin is the caller's own. */
  predicate Built(rs: seq<Timerange>) {
    forall j :: 0 <= j < |rs| ==> Normal(rs[j].end) && (0 < j ==> Normal(rs[j].begin))
  }

  lemma BuiltCons(first: Timerange, rest: seq<Timerange>)
    requires Normal(first.end)
    requires rest != [] ==> Normal(rest[0].begin)
    requires Built(rest)
    ensures Built([first] + rest)
  {
    var rs := [first] + rest;
    forall j | 0 < j < |rs|
      ensures rs[j] == rest[j - 1]
    {
    }
  }

  /** The boundary `k` steps after `b`, that is `b + k*step`, counted step by step. */
  function Reach(b: int, step: int, k: nat): int
    decreases k
  {
    if k == 0 then b else Reach(b + step, step, k - 1)
  }

  lemma {:induction false} ReachIsProduct(b: int, step: int, k: nat)
    ensures Reach(b, step, k) == b + k * step
    decreases k
  {
    if k > 0 {
      ReachIsProduct(b + step, step, k - 1);
      assert b + step + (k - 1) * step == b + k * step;
    }
  }

  /** The generator, while its boundaries stay non-negative and within range, yields
      `left` ranges in progression from `begin` without failing. */
  lemma {:induction false} SlicesShape(begin: Timestamp, length: nat, n: nat, left: nat)
    requires n > 0
    requires 0 <= ToMs(begin) && (n <= length || 1 <= ToMs(begin))
    requires Reach(ToMs(begin), length / n, left) <= MaxMs
    ensures var y := Slices(begin, length, n, left);
      && y.failure == None && |y.ranges| == left
      && (left > 0 ==> y.ranges[0].begin == begin)
      && Progression(y.ranges, length / n)
      && Built(y.ranges)
    decreases left
  {
    if left > 0 {
      var b, step := ToMs(begin), length / n;
      QuotientNonnegative(length, n);
      assert b + step <= MaxMs by {
        ReachIsProduct(b + step, step, left - 1);
        ProductNonnegative(left - 1, step);
      }
      var end, next := FromMs(b + step - 1), FromMs(b + step);
      var y, rest := Slices(begin, length, n, left), Slices(next.value, length, n, left - 1);
      assert y == Prepend([Timerange(begin, end.value)], rest) by {
        SlicesStep(begin, length, n, left);
      }
      SlicesShape(next.value, length, n, left - 1);
      ProgressionCons(Timerange(begin, end.value), rest.ranges, step);
      BuiltCons(Timerange(begin, end.value), rest.ranges);
    }
  }

  /** Begins that grow by `step` from `b` form the progression `b + j*step`. */
  lemma {:induction false} ProgressionAt(rs: seq<Timerange>, b: int, step: int, j: nat)
    requires |rs| > 0 && ToMs(rs[0].begin) == b
    requires forall k :: 0 < k < |rs| ==> ToMs(rs[k].begin) == ToMs(rs[k - 1].begin) + step
    requires j < |rs|
    ensures ToMs(rs[j].begin) == b + j * step
    decreases j
  {
    if j > 0 {
      ProgressionAt(rs, b, step, j - 1);
      assert b + (j - 1) * step + step == b + j * step;
    }
  }

  /** A product of non-negative numbers is non-negative. */
  lemma {:induction false} ProductNonnegative(a: nat, step: nat)
    ensures 0 <= a * step
    decreases a
  {
    if a > 0 {
      ProductNonnegative(a - 1, step);
      assert a * step == (a - 1) * step + step;
    }
  }

  /** Products of non-negative numbers grow with the first factor. */
  lemma {:induction false} ProductMonotone(a: nat, c: nat, step: nat)
    requires a <= c
    ensures 0 <= a * step <= c * step
    decreases c - a
  {
    if a < c {
      ProductMonotone(a + 1, c, step);
      assert (a + 1) * step == a * step + step;
    } else {
      ProductNonnegative(a, step);
    }
  }

  /** The hypothesis under which `partition(n)` has a closed form: a range within the
      representable span, at least `n` milliseconds long or starting after 0. */
  predicate Partitionable(range: Timerange, n: int) {
    && 1 <= n
    && 0 <= ToMs(range.begin) <= ToMs(range.end) <= MaxMs
    && (n <= ToMs(range.end) - ToMs(range.begin) || 1 <= ToMs(range.begin))
  }

  /** The per-slice step: the length divided by `n`, rounded down. */
  function Step(range: Timerange, n: int): int
    requires n > 0
  {
    (ToMs(range.end) - ToMs(range.begin)) / n
  }

  /** `partition(n)` yields exactly `n` ranges without failing; the i-th begins at
      `begin + i*step` and ends at `begin + (i+1)*step - 1`, and every boundary after the
      first begin is the normal timestamp `from_ms` makes of that count. */
  lemma PartitionShape(range: Timerange, n: int)
    requires Partitionable(range, n)
    ensures var y, b, step := Partition(range, n), ToMs(range.begin), Step(range, n);
      && y.failure == None && |y.ranges| == n
      && y.ranges[0].begin == range.begin
      && forall i :: 0 <= i < n ==>
           && ToMs(y.ranges[i].begin) == b + i * step
           && ToMs(y.ranges[i].end) == b + (i + 1) * step - 1
           && Normal(y.ranges[i].end) && (0 < i ==> Normal(y.ranges[i].begin))
  {
    var length := ToMs(range.end) - ToMs(range.begin);
    var b, step := ToMs(range.begin), Step(range, n);
    assert n * step <= length;
    ReachIsProduct(ToMs(range.begin), Step(range, n), n);
    SlicesShape(range.begin, length, n, n);
    var y := Partition(range, n);
    forall i | 0 <= i < n
      ensures ToMs(y.ranges[i].begin) == b + i * step
      ensures ToMs(y.ranges[i].end) == b + (i + 1) * step - 1
    {
      ProgressionAt(y.ranges, b, step, i);
      assert b + i * step + step == b + (i + 1) * step;
    }
  }

  /** So each yielded boundary is exactly the timestamp `from_ms` makes of its count: the
      i-th end is `from_ms(begin + (i+1)*step - 1)` and, after the first, the i-th begin is
      `from_ms(begin + i*step)`; their fields and rendering follow. */
  lemma PartitionBoundaries(range: Timerange, n: int)
    requires Partitionable(range, n)
    ensures var y, b, step := Partition(range, n), ToMs(range.begin), Step(range, n);
      && |y.ranges| == n
      && forall i :: 0 <= i < n ==>
           && FromMs(b + (i + 1) * step - 1) == Ok(y.ranges[i].end)
           && (0 < i ==> FromMs(b + i * step) == Ok(y.ranges[i].begin))
  {
    var y, b, step := Partition(range, n), ToMs(range.begin), Step(range, n);
    PartitionShape(range, n);
    forall i | 0 <= i < n
      ensures FromMs(b + (i + 1) * step - 1) == Ok(y.ranges[i].end)
      ensures 0 < i ==> FromMs(b + i * step) == Ok(y.ranges[i].begin)
    {
      FromMsToMs(y.ranges[i].end);
      if 0 < i {
        FromMsToMs(y.ranges[i].begin);
      }
    }
  }

  /** Consecutive ranges are one millisecond apart: each ends just before the next begins. */
  lemma PartitionContiguous(range: Timerange, n: int)
    requires Partitionable(range, n)
    ensures var y := Partition(range, n);
      |y.ranges| == n &&
      forall i :: 0 <= i < n - 1 ==> ToMs(y.ranges[i].end) + ToMs(OneMillisecond) == ToMs(y.ranges[i + 1].begin)
  {
    var length := ToMs(range.end) - ToMs(range.begin);
    assert n * Step(range, n) <= length;
    ReachIsProduct(ToMs(range.begin), Step(range, n), n);
    SlicesShape(range.begin, length, n, n);
  }

  /** With at least `n` milliseconds to share, every range is a proper range of
      `step - 1` milliseconds lying inside the partitioned one. */
  lemma PartitionRangesInside(range: Timerange, n: int)
    requires Partitionable(range, n) && n <= ToMs(range.end) - ToMs(range.begin)
    ensures var y, step := Partition(range, n), Step(range, n);
      && 1 <= step && |y.ranges| == n
      && forall i :: 0 <= i < n ==>
           && Len(y.ranges[i]) == Ok(step - 1)
           && ToMs(range.begin) <= ToMs(y.ranges[i].begin)
           && ToMs(y.ranges[i].end) < ToMs(range.end)
  {
    var length := ToMs(range.end) - ToMs(range.begin);
    var b, step := ToMs(range.begin), Step(range, n);
    var y := Partition(range, n);
    QuotientRemainder(length, n);
    assert 1 <= step;
    assert |y.ranges| == n by {
      PartitionShape(range, n);
    }
    forall i | 0 <= i < n
      ensures Len(y.ranges[i]) == Ok(step - 1)
      ensures b <= ToMs(y.ranges[i].begin)
      ensures ToMs(y.ranges[i].end) < ToMs(range.end)
    {
      assert ToMs(y.ranges[i].begin) == b + i * step && ToMs(y.ranges[i].end) == b + (i + 1) * step - 1 by {
        PartitionShape(range, n);
      }
      assert (i + 1) * step == i * step + step;
      ProductMonotone(i, i, step);
      ProductMonotone(i + 1, n, step);
    }
  }

  /** The last range ends `length mod n` milliseconds (plus the one-millisecond gap)
      before the end: the remainder of the division is dropped, never spread. */
  lemma PartitionDropsRemainder(range: Timerange, n: int)
    requires Partitionable(range, n)
    ensures var y, length := Partition(range, n), ToMs(range.end) - ToMs(range.begin);
      && |y.ranges| == n
      && ToMs(range.end) - ToMs(y.ranges[n - 1].end) - 1 == length % n
      && length % n < n
  {
    var length := ToMs(range.end) - ToMs(range.begin);
    var b, step := ToMs(range.begin), Step(range, n);
    var y := Partition(range, n);
    assert |y.ranges| == n && ToMs(y.ranges[n - 1].end) == b + n * step - 1 by {
      PartitionShape(range, n);
      assert (n - 1) + 1 == n;
    }
    QuotientRemainder(length, n);
  }

  /** A range shorter than `n` milliseconds that starts after 0 gives `n` copies of a
      reversed range ending one millisecond before its begin, so len() of each fails. */
  lemma PartitionShortRange(range: Timerange, n: int)
    requires Partitionable(range, n) && ToMs(range.end) - ToMs(range.begin) < n
    ensures var y := Partition(range, n);
      && |y.ranges| == n
      && forall i :: 0 <= i < n ==>
           && ToMs(y.ranges[i].begin) == ToMs(range.begin)
           && ToMs(y.ranges[i].end) == ToMs(range.begin) - 1
           && Len(y.ranges[i]) == Err(NegativeLength)
  {
    var length := ToMs(range.end) - ToMs(range.begin);
    QuotientUnique(length, n, 0, length);
    ReachIsProduct(ToMs(range.begin), Step(range, n), n);
    SlicesShape(range.begin, length, n, n);
    var y := Partition(range, n);
    forall i | 0 <= i < n
      ensures ToMs(y.ranges[i].begin) == ToMs(range.begin)
    {
      ProgressionAt(y.ranges, ToMs(range.begin), 0, i);
    }
  }

  /** A zero-length range at 0 split into one piece ends at `from_ms(-1)`, that is -1:59:59,999:
      `long()` truncates `-1.0` to -1 and `from_ms` has no lower bound. */
  lemma PartitionEmptyRangeAtZero(range: Timerange)
    requires ToMs(range.begin) == 0 && ToMs(range.end) == 0
    ensures Partition(range, 1) == Yield([Timerange(range.begin, Timestamp(-1, 59, 59, 999))], None)
  {
    var last := Timestamp(-1, 59, 59, 999);
    var first := Timerange(range.begin, last);
    assert Partition(range, 1) == Slices(range.begin, 0, 1, 1) by {
      assert Len(range) == Ok(0);
    }
    assert Slices(range.begin, 0, 1, 1) == Yield([first], None) by {
      assert FromMs(SliceEnd(0, 0, 1)) == Ok(last) by {
        assert SliceEnd(0, 0, 1) == -1;
        FromMsToMs(last);
      }
      var next := FromMs(SliceNext(0, 0, 1));
      assert next.Ok?;
      assert Slices(next.value, 0, 1, 0) == Yield([], None);
      assert [first] + [] == [first];
    }
  }
}
