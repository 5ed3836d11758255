/** The length of a literal sequence(start, end, step) (core/scans.py, _sequence_length). */
module Sequences {
  import opened Prelude

  /** A row count of something that always yields at least one row. */
  type Rows = n: nat | n > 0 witness 1

  /** An endpoint: a whole number, a date by its ordinal, or anything else. */
  datatype Point = Number(n: int) | Date(ordinal: int) | NoPoint

  /** A step: none written, a whole number, an interval (its unit upper-cased, its magnitude if it is a whole
    * number), or anything else. */
  datatype Step = Unwritten | By(n: int) | Interval(unit: string, magnitude: Option<int>) | NoStep

  datatype Span = Span(start: Point, end: Point, step: Step)

  function Abs(x: int): nat { if x < 0 then -x else x }

  function PointAt(p: Point): Option<int> {
    match p
    case Number(n) => Some(n)
    case Date(ordinal) => Some(ordinal)
    case NoPoint => None
  }

  /** Units with a fixed number of days; a month or a year has none. */
  function UnitDays(unit: string): Option<Rows> {
    if unit == "DAY" then Some(1) else if unit == "WEEK" then Some(7) else None
  }

  function Stride(step: Step): Option<Rows> {
    match step
    case Unwritten => Some(1)
    case By(n) => if n == 0 then None else Some(Abs(n))
    case Interval(unit, magnitude) =>
      if UnitDays(unit).None? || magnitude.None? || magnitude.value <= 0 then None
      else
        MulMonotone(1, magnitude.value, 1, UnitDays(unit).value);
        Some(magnitude.value * UnitDays(unit).value)
    case NoStep => None
  }

  function SequenceLength(s: Span): Option<Rows> {
    if PointAt(s.start).None? || PointAt(s.end).None? || Stride(s.step).None? then None
    else Some(Abs(PointAt(s.end).value - PointAt(s.start).value) / Stride(s.step).value + 1)
  }

  /** The signed step: what is written, or one towards the end. */
  function StepOf(s: Span): (step: int)
    requires SequenceLength(s).Some?
    ensures Abs(step) == Stride(s.step).value
  {
    match s.step
    case Unwritten => if PointAt(s.end).value >= PointAt(s.start).value then 1 else -1
    case By(n) => n
    case _ => Stride(s.step).value
  }

  /** The elements obtained by stepping from start while not past end. */
  function Stepped(at: int, end: int, step: int): seq<int>
    requires step != 0
    decreases if step > 0 then end - at + 1 else at - end + 1
  {
    if (step > 0 && at > end) || (step < 0 && at < end) then [] else [at] + Stepped(at + step, end, step)
  }

  function Elements(s: Span): seq<int>
    requires SequenceLength(s).Some?
  {
    Stepped(PointAt(s.start).value, PointAt(s.end).value, StepOf(s))
  }

  predicate PointsTowardsEnd(s: Span)
    requires SequenceLength(s).Some?
  {
    if StepOf(s) > 0 then PointAt(s.start).value <= PointAt(s.end).value else PointAt(s.start).value >= PointAt(s.end).value
  }

  lemma {:induction false} SteppedCount(at: int, end: int, step: int)
    requires step != 0 && (if step > 0 then at <= end else at >= end)
    ensures |Stepped(at, end, step)| == Abs(end - at) / Abs(step) + 1
    decreases if step > 0 then end - at + 1 else at - end + 1
  {
    var distance, stride := Abs(end - at), Abs(step);
    if distance < stride {
      QuotientIs(distance, stride, 0, distance);
      assert Stepped(at + step, end, step) == [];
    } else {
      assert Abs(end - (at + step)) == distance - stride;
      SteppedCount(at + step, end, step);
      DivideStep(distance, stride);
    }
  }

  lemma DivideStep(n: nat, d: nat)
    requires 0 < d <= n
    ensures n / d == (n - d) / d + 1
  {
    var q := (n - d) / d;
    assert n - d == q * d + (n - d) % d;
    assert n == (q + 1) * d + (n - d) % d;
    QuotientIs(n, d, q + 1, (n - d) % d);
  }

  lemma QuotientIs(n: nat, d: nat, q: nat, r: nat)
    requires d > 0 && n == q * d + r && r < d
    ensures n / d == q
  {
    if n / d > q {
      MulMonotone(q + 1, n / d, d, d);
    } else if n / d < q {
      MulMonotone(n / d + 1, q, d, d);
    }
  }

  /** The computed length counts the elements exactly when the step points towards the end; otherwise the
    * sequence is empty and the length still says at least one. */
  lemma LengthIsExactIffPointing(s: Span)
    requires SequenceLength(s).Some?
    ensures SequenceLength(s).value == |Elements(s)| <==> PointsTowardsEnd(s)
    ensures SequenceLength(s).value >= |Elements(s)|
    ensures !PointsTowardsEnd(s) ==> Elements(s) == []
  {
    if PointsTowardsEnd(s) {
      SteppedCount(PointAt(s.start).value, PointAt(s.end).value, StepOf(s));
    }
  }

  /** The signed step as it is written: a day or a week at a time for an interval, never a month or a year. */
  ghost predicate IsStep(s: Span, step: int) {
    match s.step
    case Unwritten => PointAt(s.start).Some? && PointAt(s.end).Some? && step == if PointAt(s.end).value >= PointAt(s.start).value then 1 else -1
    case By(n) => n != 0 && step == n
    case Interval(unit, magnitude) => step > 0 && ((unit == "DAY" && magnitude == Some(step)) || (unit == "WEEK" && exists m :: magnitude == Some(m) && step == 7 * m))
    case NoStep => false
  }

  /** A length is computed exactly from known endpoints and a readable step. */
  lemma LengthIffReadable(s: Span)
    ensures SequenceLength(s).Some? <==> s.start != NoPoint && s.end != NoPoint && exists step :: IsStep(s, step)
    ensures SequenceLength(s).Some? ==> IsStep(s, StepOf(s))
  {
    if SequenceLength(s).Some? {
      assert IsStep(s, StepOf(s)) by {
        if s.step.Interval? && s.step.unit == "WEEK" {
          assert s.step.magnitude == Some(s.step.magnitude.value) && StepOf(s) == 7 * s.step.magnitude.value;
        }
      }
    }
    if s.start != NoPoint && s.end != NoPoint {
      if step :| IsStep(s, step) {
        assert Stride(s.step).Some?;
      }
    }
  }

  lemma {:induction false} SteppedAt(at: int, end: int, step: int, k: nat)
    requires step != 0 && k < |Stepped(at, end, step)|
    ensures Stepped(at, end, step)[k] == at + k * step
    ensures if step > 0 then at + k * step <= end else at + k * step >= end
    decreases k
  {
    if k > 0 {
      SteppedAt(at + step, end, step, k - 1);
      assert (k - 1) * step + step == k * step;
    }
  }

  /** Its elements are the steps from its start that do not pass its end. */
  lemma ElementsAreSteps(s: Span, k: nat)
    requires SequenceLength(s).Some? && k < |Elements(s)|
    ensures Elements(s)[k] == PointAt(s.start).value + k * StepOf(s)
    ensures if StepOf(s) > 0 then Elements(s)[k] <= PointAt(s.end).value else Elements(s)[k] >= PointAt(s.end).value
  {
    SteppedAt(PointAt(s.start).value, PointAt(s.end).value, StepOf(s), k);
  }
}
