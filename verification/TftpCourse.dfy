/**
  The course of a read transfer in numbers alone: which 512-byte slices of the file go out, under which
  block numbers, when packets arrive and read requests are processed again in any order.
 */
module TftpCourse {
  /** What happens to a transfer: its request is processed again, or a packet arrives at its port, which
      is the ACK that is due or is not. */
  datatype Step = Again | Arrival(acked: bool)

  /** A DATA packet: its number, and the slice of the file it carries. */
  datatype Mark = Mark(number: int, slice: nat)

  /** The packets sent so far, the number of the last one, how many packets have arrived since the latest
      request, whether the port is open, and whether some request was processed inside, that is, after the
      second slice was sent and before the last one. */
  datatype Course = Course(marks: seq<Mark>, number: int, since: nat, open: bool, inside: bool)
  {
    function Last(): nat {
      if marks == [] then 0 else marks[|marks| - 1].slice
    }

    /** A packet is answered with the slice counted from the latest request; after the last slice of the
        file it closes the port. */
    function After(blocks: nat, step: Step): Course {
      match step
      case Again => this.(since := 0, inside := inside || (since > 0 && Last() != blocks))
      case Arrival(acked) =>
        var next := if acked then number + 1 else number;
        if Last() == blocks then this.(since := since + 1, number := next, open := false)
        else this.(since := since + 1, number := next, marks := marks + [Mark(next, since + 2)])
    }
  }

  const FIRST := Course([Mark(1, 1)], 1, 0, true, false)

  function CourseOf(blocks: nat, steps: seq<Step>): Course {
    if steps == [] then FIRST else CourseOf(blocks, steps[..|steps| - 1]).After(blocks, steps[|steps| - 1])
  }

  lemma CourseOne(blocks: nat, before: seq<Step>, step: Step)
    ensures CourseOf(blocks, before + [step]) == CourseOf(blocks, before).After(blocks, step)
  {
    assert (before + [step])[..|before|] == before;
  }

  /** How many packets have arrived since the latest request. */
  function Since(steps: seq<Step>): nat {
    if steps == [] || steps[|steps| - 1].Again? then 0 else 1 + Since(steps[..|steps| - 1])
  }

  /** How many packets have arrived. */
  function Arrivals(steps: seq<Step>): nat {
    if steps == [] then 0 else Arrivals(steps[..|steps| - 1]) + if steps[|steps| - 1].Again? then 0 else 1
  }

  lemma {:induction false} CourseCounts(blocks: nat, steps: seq<Step>)
    ensures CourseOf(blocks, steps).since == Since(steps)
  {
    if steps != [] {
      CourseCounts(blocks, steps[..|steps| - 1]);
    }
  }

  /** Some request of the run was processed in mid-transfer: with a packet since the request before, and
      the last slice still to come. */
  predicate RequestedInside(blocks: nat, steps: seq<Step>) {
    steps != [] &&
    var before := steps[..|steps| - 1];
    RequestedInside(blocks, before)
    || (steps[|steps| - 1].Again? && Since(before) > 0 && CourseOf(blocks, before).Last() != blocks)
  }

  lemma {:induction false} InsideIff(blocks: nat, steps: seq<Step>)
    ensures CourseOf(blocks, steps).inside <==> RequestedInside(blocks, steps)
  {
    if steps != [] {
      InsideIff(blocks, steps[..|steps| - 1]);
      CourseCounts(blocks, steps[..|steps| - 1]);
    }
  }

  /** Consecutive from 1 on. */
  predicate InSequence(marks: seq<Mark>) {
    forall k: nat :: k < |marks| ==> marks[k].slice == k + 1
  }

  predicate InRange(blocks: nat, marks: seq<Mark>) {
    forall k: nat :: k < |marks| ==> 1 <= marks[k].slice <= blocks
  }

  /** Only the last one can carry the last slice of the file. */
  predicate EndsOnce(blocks: nat, marks: seq<Mark>) {
    forall k: nat :: k < |marks| - 1 ==> marks[k].slice != blocks
  }

  /** What the next answer depends on. */
  ghost predicate Bounded(blocks: nat, c: Course) {
    && c.marks != [] && InRange(blocks, c.marks)
    && (c.open ==> c.since < blocks)
    && (c.Last() < blocks ==> c.open && c.since + 1 < blocks)
  }

  ghost predicate CourseForm(blocks: nat, c: Course) {
    && Bounded(blocks, c) && EndsOnce(blocks, c.marks)
    && (if c.Last() < blocks then
          c.since + 1 <= |c.marks| && (c.since + 1 == |c.marks| <==> !c.inside)
        else
          blocks <= |c.marks| && (blocks == |c.marks| <==> !c.inside))
    && (!c.inside ==> InSequence(c.marks))
  }

  lemma CourseStep(blocks: nat, c: Course, step: Step)
    requires CourseForm(blocks, c)
    ensures CourseForm(blocks, c.After(blocks, step))
  {
  }

  /** The slices are in sequence as long as no request was processed inside; if one was, they are more
      than the file has. */
  lemma {:induction false} CourseAlways(blocks: nat, steps: seq<Step>)
    requires blocks >= 1
    ensures CourseForm(blocks, CourseOf(blocks, steps))
  {
    if steps != [] {
      CourseAlways(blocks, steps[..|steps| - 1]);
      CourseStep(blocks, CourseOf(blocks, steps[..|steps| - 1]), steps[|steps| - 1]);
    }
  }

  lemma NextBounded(blocks: nat, steps: seq<Step>, step: Step)
    requires blocks >= 1
    ensures Bounded(blocks, CourseOf(blocks, steps))
    ensures Bounded(blocks, CourseOf(blocks, steps).After(blocks, step))
  {
    CourseAlways(blocks, steps);
    CourseStep(blocks, CourseOf(blocks, steps), step);
  }

  /** Every packet that arrives is answered, until the port closes. */
  lemma {:induction false} AllAnswered(blocks: nat, steps: seq<Step>)
    requires blocks >= 1
    ensures var c := CourseOf(blocks, steps);
      if c.open then |c.marks| == Arrivals(steps) + 1 else |c.marks| <= Arrivals(steps)
  {
    if steps != [] {
      AllAnswered(blocks, steps[..|steps| - 1]);
      CourseAlways(blocks, steps[..|steps| - 1]);
    }
  }

  /** Every packet of these is an arrival. */
  predicate Quiet(steps: seq<Step>) {
    forall i :: 0 <= i < |steps| ==> steps[i].Arrival?
  }

  lemma {:induction false} SinceGrows(steps: seq<Step>, more: seq<Step>)
    requires Quiet(more)
    ensures Since(steps + more) == Since(steps) + |more|
  {
    if more == [] {
      assert steps + more == steps;
    } else {
      assert (steps + more)[..|steps + more| - 1] == steps + more[..|more| - 1];
      SinceGrows(steps, more[..|more| - 1]);
    }
  }

  /** Whatever has happened, as many packets as the file has slices close the port, if no further request
      is processed. */
  lemma ClosesWithin(blocks: nat, steps: seq<Step>, more: seq<Step>)
    requires blocks >= 1 && Quiet(more) && |more| >= blocks
    ensures !CourseOf(blocks, steps + more).open
  {
    CourseAlways(blocks, steps + more);
    CourseCounts(blocks, steps + more);
    SinceGrows(steps, more);
  }

  lemma {:induction false} QuietIsUndisturbed(blocks: nat, steps: seq<Step>)
    requires Quiet(steps)
    ensures !CourseOf(blocks, steps).inside
  {
    if steps != [] {
      QuietIsUndisturbed(blocks, steps[..|steps| - 1]);
    }
  }
}
