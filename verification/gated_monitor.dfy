/** The camera monitor with a single-in-flight processing gate (main.py).

    It runs the absolute-difference detector of `MotionDetector`; a static
    verdict submits the colour frame to the inference workers and closes the
    gate, and every later tick is skipped, without even reading the camera,
    until the workers' result is delivered and reopens it. The workers are
    opaque: a submission is a frame appended to `submitted`, and a result is
    an event carrying the pin count. */
module GatedMonitor {
  import opened Frames
  import MotionDetector

  /** A timer tick (with what the camera would return if read), or the arrival
      of one pipeline result. */
  datatype Event = Tick(read: Read) | ResultReady(pins: int)

  /** `processing` is the gate; `submitted` is every frame put on the input
      queue and `reported` every pin count taken from the result queue. */
  datatype Monitor = Monitor(detector: MotionDetector.Detector, processing: bool,
                             submitted: seq<Frame>, reported: seq<int>)

  /** What one event did: a tick skipped because the gate is closed, a tick
      that ran the detector, a result that reopened the gate, or a result with
      no submission waiting for it. */
  datatype Outcome = Busy | Observed(obs: Observation) | Released | Unclaimed

  /** The monitor as the window constructor leaves it. */
  function Init(): Monitor {
    Monitor(MotionDetector.Init(), false, [], [])
  }

  /** A tick that reads the camera gets a frame comparable with the stored
      reference. */
  predicate Accepts(m: Monitor, e: Event) {
    e.Tick? && !m.processing ==> Fits(m.detector.reference, e.read)
  }

  function Step(m: Monitor, e: Event): (s: Stepped<Monitor, Outcome>)
    requires Accepts(m, e)
    // a closed gate skips the tick entirely
    ensures e.Tick? && m.processing ==> s == Stepped(m, Busy)
    // an open gate runs the detector on the read: a frame after the first is
    // static exactly when its difference sum is strictly below the threshold
    ensures e.Tick? && !m.processing ==> s.out.Observed?
    ensures e.Tick? && !m.processing ==> (s.out == Observed(NoFrame) <==> e.read.Failed?)
    // the first frame seeds, and only the first: a later frame gets a verdict
    ensures e.Tick? && !m.processing ==>
              (s.out == Observed(Seeded) <==> e.read.Got? && m.detector.reference.None?)
    ensures e.Tick? && !m.processing && e.read.Got? && m.detector.reference.Some? ==>
              s.out.Observed? && s.out.obs.Judged?
    ensures e.Tick? && !m.processing && e.read.Got? && m.detector.reference.Some? ==>
              (s.out == Observed(Judged(Static)) <==>
               DiffSum(m.detector.reference.value, e.read.frame.gray) < m.detector.threshold)
    // a failed read changes nothing
    ensures e.Tick? && e.read.Failed? && !m.processing ==> s == Stepped(m, Observed(NoFrame))
    // the first frame only becomes the reference
    ensures e.Tick? && s.out == Observed(Seeded) ==>
              s.next == m.(detector := m.detector.(reference := Some(e.read.frame.gray)))
    // a static verdict keeps the reference, counts once, closes the gate and
    // submits exactly the frame just read
    ensures e.Tick? && s.out == Observed(Judged(Static)) ==>
              && s.next.detector == m.detector.(staticCount := m.detector.staticCount + 1)
              && s.next.processing
              && s.next.submitted == m.submitted + [e.read.frame]
              && s.next.reported == m.reported
    // a moving verdict only replaces the reference
    ensures e.Tick? && s.out == Observed(Judged(Moving)) ==>
              s.next == m.(detector := m.detector.(reference := Some(e.read.frame.gray)))
    // any other verdict, a seed or a failed read touches neither gate nor queues
    ensures s.out.Observed? && s.out.obs != Judged(Static) ==>
              s.next == m.(detector := s.next.detector)
    // a submission happens only through an open gate
    ensures |s.next.submitted| > |m.submitted| ==> e.Tick? && !m.processing
    ensures m.submitted <= s.next.submitted && |s.next.submitted| <= |m.submitted| + 1
    // a result reopens the gate and is reported; the detector is untouched
    ensures e.ResultReady? ==> s.out == (if m.processing then Released else Unclaimed)
    ensures e.ResultReady? ==>
              && s.next.detector == m.detector
              && s.next.submitted == m.submitted
              && !s.next.processing
              && s.next.reported == (if m.processing then m.reported + [e.pins] else m.reported)
  {
    match e
    case Tick(r) =>
      if m.processing then Stepped(m, Busy)
      else
        var d := MotionDetector.Step(m.detector, r);
        if d.out == Judged(Static) then
          Stepped(Monitor(d.next, true, m.submitted + [r.frame], m.reported), Observed(d.out))
        else
          Stepped(m.(detector := d.next), Observed(d.out))
    case ResultReady(pins) =>
      if m.processing then Stepped(m.(processing := false, reported := m.reported + [pins]), Released)
      else Stepped(m, Unclaimed)
  }

  /** While the gate is closed the camera is not consulted: the tick's result
      does not depend on what the camera would have returned. */
  lemma BusyIgnoresCamera(m: Monitor, r1: Read, r2: Read)
    requires m.processing
    ensures Step(m, Tick(r1)) == Step(m, Tick(r2)) == Stepped(m, Busy)
  {
  }

  /** The gate counts what is in flight: at most one submission has no result
      yet, exactly when the gate is closed, and every static verdict is a
      submission. */
  predicate GateInvariant(m: Monitor) {
    && |m.submitted| == |m.reported| + (if m.processing then 1 else 0)
    && m.detector.staticCount == |m.submitted|
  }

  lemma InitSatisfiesGate()
    ensures GateInvariant(Init())
    ensures !Init().processing && Init().detector.reference.None?
  {
  }

  lemma StepKeepsGate(m: Monitor, e: Event)
    requires Accepts(m, e) && GateInvariant(m)
    ensures GateInvariant(Step(m, e).next)
    ensures 0 <= |Step(m, e).next.submitted| - |Step(m, e).next.reported| <= 1
  {
  }

  /** The camera reads of a sequence of events; a result event stands for no
      frame. */
  function Reads(es: seq<Event>): (rs: seq<Read>)
    ensures |rs| == |es|
    ensures forall i :: 0 <= i < |es| ==> rs[i] == (if es[i].Tick? then es[i].read else Failed)
  {
    seq(|es|, i requires 0 <= i < |es| => if es[i].Tick? then es[i].read else Failed)
  }

  lemma ReadsTail(es: seq<Event>)
    requires |es| > 0
    ensures Reads(es)[1..] == Reads(es[1..])
  {
  }

  /** The final monitor and the outcome of every event. */
  datatype Trace = Trace(last: Monitor, outcomes: seq<Outcome>)

  /** Delivers the events one by one, in order. */
  function Run(m: Monitor, es: seq<Event>): (t: Trace)
    requires Uniform(m.detector.reference, Reads(es))
    ensures |t.outcomes| == |es|
    ensures m.submitted <= t.last.submitted && m.reported <= t.last.reported
    decreases |es|
  {
    if |es| == 0 then Trace(m, [])
    else
      var s := Step(m, es[0]);
      ReadsTail(es);
      UniformTail(m.detector.reference, Reads(es), s.next.detector.reference);
      var t := Run(s.next, es[1..]);
      Trace(t.last, [s.out] + t.outcomes)
  }

  /** A run is its first step followed by the run of the remaining events. */
  lemma RunCons(m: Monitor, es: seq<Event>)
    requires |es| > 0 && Uniform(m.detector.reference, Reads(es))
    ensures Accepts(m, es[0])
    ensures Uniform(Step(m, es[0]).next.detector.reference, Reads(es[1..]))
    ensures var s := Step(m, es[0]);
            var t := Run(s.next, es[1..]);
            Run(m, es) == Trace(t.last, [s.out] + t.outcomes)
  {
    ReadsTail(es);
    UniformTail(m.detector.reference, Reads(es), Step(m, es[0]).next.detector.reference);
  }

  /** Over any sequence of ticks and results the gate invariant holds: the
      submissions outnumber the delivered results by 0 or 1. */
  lemma {:induction false} RunKeepsGate(m: Monitor, es: seq<Event>)
    requires Uniform(m.detector.reference, Reads(es))
    requires GateInvariant(m)
    ensures GateInvariant(Run(m, es).last)
    ensures 0 <= |Run(m, es).last.submitted| - |Run(m, es).last.reported| <= 1
    decreases |es|
  {
    if |es| > 0 {
      RunCons(m, es);
      StepKeepsGate(m, es[0]);
      RunKeepsGate(Step(m, es[0]).next, es[1..]);
    }
  }

  /** The frames of the ticks whose outcome was a static verdict, in order. */
  function StaticFrames(es: seq<Event>, outs: seq<Outcome>): (fs: seq<Frame>)
    requires |outs| == |es|
    ensures |fs| <= |es|
  {
    if |es| == 0 then []
    else
      (if outs[0] == Observed(Judged(Static)) && es[0].Tick? && es[0].read.Got?
       then [es[0].read.frame] else [])
      + StaticFrames(es[1..], outs[1..])
  }

  /** One event appends to the input queue exactly the frame of a static
      verdict. */
  lemma StepSubmits(m: Monitor, e: Event)
    requires Accepts(m, e)
    ensures var s := Step(m, e);
            s.next.submitted == m.submitted + StaticFrames([e], [s.out])
  {
  }

  /** Splits off the first event of `StaticFrames`. */
  lemma StaticFramesCons(e: Event, o: Outcome, es: seq<Event>, outs: seq<Outcome>)
    requires |outs| == |es|
    ensures StaticFrames([e] + es, [o] + outs) == StaticFrames([e], [o]) + StaticFrames(es, outs)
  {
  }

  /** The input queue receives exactly the frames judged static, in the order
      they were judged, and nothing else. */
  lemma {:induction false} SubmissionsAreStaticFrames(m: Monitor, es: seq<Event>)
    requires Uniform(m.detector.reference, Reads(es))
    ensures var t := Run(m, es);
            t.last.submitted == m.submitted + StaticFrames(es, t.outcomes)
    decreases |es|
  {
    if |es| > 0 {
      RunCons(m, es);
      var s := Step(m, es[0]);
      var t' := Run(s.next, es[1..]);
      SubmissionsAreStaticFrames(s.next, es[1..]);
      StepSubmits(m, es[0]);
      StaticFramesCons(es[0], s.out, es[1..], t'.outcomes);
      assert [es[0]] + es[1..] == es;
    }
  }

  /** One full cycle from start-up: the first frame seeds the reference, an
      identical second frame is static and submitted, a third tick is skipped
      while the pipeline runs, and the result reopens the gate. */
  lemma SubmitThenRelease(f1: Frame, f2: Frame, r3: Read, pins: int)
    requires f2.gray == f1.gray
    ensures var m1 := Step(Init(), Tick(Got(f1)));
            var m2 := Step(m1.next, Tick(Got(f2)));
            var m3 := Step(m2.next, Tick(r3));
            var m4 := Step(m3.next, ResultReady(pins));
            && m1.out == Observed(Seeded)
            && m2.out == Observed(Judged(Static)) && m2.next.submitted == [f2] && m2.next.processing
            && m3.out == Busy && m3.next == m2.next
            && m4.out == Released && m4.next.reported == [pins] && !m4.next.processing
            && m4.next.detector.staticCount == 1
  {
  }

  /** Two consecutive identical grey frames through an open gate: the second
      is static, unless the first was already static and closed the gate. */
  lemma IdenticalFramesThroughGate(m: Monitor, f1: Frame, f2: Frame)
    requires !m.processing
    requires Fits(m.detector.reference, Got(f1))
    requires f2.gray == f1.gray
    requires m.detector.threshold == MotionDetector.DefaultThreshold
    ensures var s1 := Step(m, Tick(Got(f1)));
            var s2 := Step(s1.next, Tick(Got(f2)));
            s2.out == (if s1.out == Observed(Judged(Static)) then Busy else Observed(Judged(Static)))
  {
  }
}
