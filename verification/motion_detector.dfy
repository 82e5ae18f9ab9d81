/** The absolute-difference stillness detector of the camera monitor without a
    processing gate (mainCV.py). The gated monitor (main.py) runs the very same
    detector behind its gate, so it reuses `Step` from here.

    The reference frame is replaced only when motion is seen: static frames are
    all compared against the first frame or the last moving one. */
module MotionDetector {
  import opened Frames

  /** Configured difference threshold (mainCV.py:47, main.py:49). */
  const DefaultThreshold: int := 1000000

  /** `reference` is the stored grey frame (`prev_frame`), `staticCount` the
      number of static frames seen so far. */
  datatype Detector = Detector(reference: Option<Gray>, threshold: int, staticCount: nat)

  /** The detector as the window constructor leaves it. */
  function Init(): (d: Detector)
    ensures d.reference.None? && d.staticCount == 0 && d.threshold == DefaultThreshold
  {
    Detector(None, DefaultThreshold, 0)
  }

  /** A frame is still when its summed difference from the reference is
      strictly below the threshold. */
  predicate IsStill(d: Detector, g: Gray)
    requires d.reference.Some? && |g| == |d.reference.value|
  {
    DiffSum(d.reference.value, g) < d.threshold
  }

  /** One timer tick with the given camera read. */
  function Step(d: Detector, r: Read): (s: Stepped<Detector, Observation>)
    requires Fits(d.reference, r)
    ensures s.next.threshold == d.threshold
    // a failed read changes nothing
    ensures s.out == NoFrame <==> r.Failed?
    ensures r.Failed? ==> s.next == d
    // the first frame only becomes the reference
    ensures s.out == Seeded <==> r.Got? && d.reference.None?
    ensures s.out == Seeded ==> s.next == d.(reference := Some(r.frame.gray))
    // later frames are judged against the reference
    ensures r.Got? && d.reference.Some? ==>
              (s.out == Judged(Static) <==> DiffSum(d.reference.value, r.frame.gray) < d.threshold)
    ensures s.out == Judged(Static) ==> s.next == d.(staticCount := d.staticCount + 1)
    ensures s.out == Judged(Moving) ==> s.next == d.(reference := Some(r.frame.gray))
  {
    match r
    case Failed => Stepped(d, NoFrame)
    case Got(f) =>
      match d.reference
      case None => Stepped(d.(reference := Some(f.gray)), Seeded)
      case Some(_) =>
        if IsStill(d, f.gray) then Stepped(d.(staticCount := d.staticCount + 1), Judged(Static))
        else Stepped(d.(reference := Some(f.gray)), Judged(Moving))
  }

  /** The final detector and the observation of every tick. */
  datatype Trace = Trace(last: Detector, observations: seq<Observation>)

  /** Ticks the detector once per read, in order. */
  function Run(d: Detector, rs: seq<Read>): (t: Trace)
    requires Uniform(d.reference, rs)
    ensures |t.observations| == |rs|
    ensures forall i :: 0 <= i < |rs| ==> (t.observations[i] == NoFrame <==> rs[i].Failed?)
    ensures t.last.threshold == d.threshold
    ensures d.reference.Some? ==> t.last.reference.Some?
    decreases |rs|
  {
    if |rs| == 0 then Trace(d, [])
    else
      var s := Step(d, rs[0]);
      UniformTail(d.reference, rs, s.next.reference);
      var t := Run(s.next, rs[1..]);
      Trace(t.last, [s.out] + t.observations)
  }

  /** A run is its first step followed by the run of the remaining reads. */
  lemma RunCons(d: Detector, rs: seq<Read>)
    requires |rs| > 0 && Uniform(d.reference, rs)
    ensures Fits(d.reference, rs[0])
    ensures Uniform(Step(d, rs[0]).next.reference, rs[1..])
    ensures var s := Step(d, rs[0]);
            var t := Run(s.next, rs[1..]);
            Run(d, rs) == Trace(t.last, [s.out] + t.observations)
  {
    UniformTail(d.reference, rs, Step(d, rs[0]).next.reference);
  }

  /** The observations that (re)set the reference. */
  predicate Resets(o: Observation) {
    o == Seeded || o == Judged(Moving)
  }

  /** `static_count` counts exactly the static verdicts of the run, so it
      never decreases. */
  lemma {:induction false} StaticCountIsVerdictCount(d: Detector, rs: seq<Read>)
    requires Uniform(d.reference, rs)
    ensures Run(d, rs).last.staticCount == d.staticCount + CountStatic(Run(d, rs).observations)
    ensures Run(d, rs).last.staticCount >= d.staticCount
    decreases |rs|
  {
    if |rs| > 0 {
      var s := Step(d, rs[0]);
      RunCons(d, rs);
      StaticCountIsVerdictCount(s.next, rs[1..]);
      var obs := Run(d, rs).observations;
      assert obs == [s.out] + Run(s.next, rs[1..]).observations;
      assert obs[1..] == Run(s.next, rs[1..]).observations;
    }
  }

  /** The reference is the grey image of the last read that seeded it or was
      judged moving; with no such read it is the initial reference. */
  lemma {:induction false} ReferenceIsLastReset(d: Detector, rs: seq<Read>)
    requires Uniform(d.reference, rs)
    ensures var t := Run(d, rs);
            (forall k :: 0 <= k < |rs| ==> !Resets(t.observations[k])) ==> t.last.reference == d.reference
    ensures var t := Run(d, rs);
            forall k :: 0 <= k < |rs| && Resets(t.observations[k])
                        && (forall j :: k < j < |rs| ==> !Resets(t.observations[j]))
                        ==> rs[k].Got? && t.last.reference == Some(rs[k].frame.gray)
    decreases |rs|
  {
    if |rs| > 0 {
      var s := Step(d, rs[0]);
      RunCons(d, rs);
      ReferenceIsLastReset(s.next, rs[1..]);
      var t := Run(d, rs);
      var t' := Run(s.next, rs[1..]);
      assert t.last == t'.last;
      assert t.observations == [s.out] + t'.observations;
      assert forall k :: 1 <= k < |rs| ==> t.observations[k] == t'.observations[k - 1] && rs[k] == rs[1..][k - 1];
      if !Resets(s.out) {
        assert s.next.reference == d.reference;
      }
    }
  }

  /** No drift: while every frame stays under the threshold from the stored
      reference, every frame is static and the reference never moves, however
      far consecutive frames wander between themselves. */
  lemma {:induction false} NoDrift(d: Detector, rs: seq<Read>)
    requires Uniform(d.reference, rs)
    requires d.reference.Some?
    requires forall i :: 0 <= i < |rs| && rs[i].Got? ==>
               |rs[i].frame.gray| == |d.reference.value| && DiffSum(d.reference.value, rs[i].frame.gray) < d.threshold
    ensures Run(d, rs).last.reference == d.reference
    ensures forall i :: 0 <= i < |rs| && rs[i].Got? ==> Run(d, rs).observations[i] == Judged(Static)
    ensures Run(d, rs).last.staticCount == d.staticCount + CountGot(rs)
    decreases |rs|
  {
    if |rs| > 0 {
      var s := Step(d, rs[0]);
      assert s.next.reference == d.reference;
      RunCons(d, rs);
      assert forall i :: 0 <= i < |rs| - 1 ==> rs[1..][i] == rs[i + 1];
      NoDrift(s.next, rs[1..]);
      var t := Run(d, rs);
      var t' := Run(s.next, rs[1..]);
      assert t.observations == [s.out] + t'.observations;
      assert forall i :: 1 <= i < |rs| ==> t.observations[i] == t'.observations[i - 1];
    }
  }

  /** Once the detector holds a reference it never seeds again. */
  lemma {:induction false} NeverReseeds(d: Detector, rs: seq<Read>)
    requires Uniform(d.reference, rs)
    requires d.reference.Some?
    ensures forall i :: 0 <= i < |rs| ==> Run(d, rs).observations[i] != Seeded
    decreases |rs|
  {
    if |rs| > 0 {
      var s := Step(d, rs[0]);
      RunCons(d, rs);
      NeverReseeds(s.next, rs[1..]);
      var t := Run(d, rs);
      var t' := Run(s.next, rs[1..]);
      assert t.observations == [s.out] + t'.observations;
      assert forall i :: 1 <= i < |rs| ==> t.observations[i] == t'.observations[i - 1];
    }
  }

  /** With no reference yet, exactly the first successful read seeds the
      reference. */
  lemma {:induction false} FirstFrameSeeds(d: Detector, rs: seq<Read>)
    requires Uniform(d.reference, rs)
    requires d.reference.None?
    ensures forall i :: 0 <= i < |rs| ==>
              (Run(d, rs).observations[i] == Seeded <==>
               rs[i].Got? && forall j :: 0 <= j < i ==> rs[j].Failed?)
    decreases |rs|
  {
    if |rs| > 0 {
      var s := Step(d, rs[0]);
      RunCons(d, rs);
      var obs := Run(d, rs).observations;
      var obs' := Run(s.next, rs[1..]).observations;
      assert obs == [s.out] + obs';
      if rs[0].Got? {
        NeverReseeds(s.next, rs[1..]);
        forall i | 1 <= i < |rs|
          ensures obs[i] != Seeded
        {
          assert obs[i] == obs'[i - 1];
        }
      } else {
        FirstFrameSeeds(s.next, rs[1..]);
        forall i | 1 <= i < |rs|
          ensures obs[i] == Seeded <==> rs[i].Got? && forall j :: 0 <= j < i ==> rs[j].Failed?
        {
          assert obs[i] == obs'[i - 1] && rs[i] == rs[1..][i - 1];
          assert (forall j :: 0 <= j < i ==> rs[j].Failed?) <==>
                 (forall j :: 0 <= j < i - 1 ==> rs[1..][j].Failed?);
        }
      }
    }
  }

  /** With no reference yet, no verdict comes before the seed. */
  lemma {:induction false} VerdictFollowsSeed(d: Detector, rs: seq<Read>)
    requires Uniform(d.reference, rs)
    requires d.reference.None?
    ensures forall i :: 0 <= i < |rs| && Run(d, rs).observations[i].Judged? ==>
              exists j :: 0 <= j < i && Run(d, rs).observations[j] == Seeded
    decreases |rs|
  {
    if |rs| > 0 {
      var s := Step(d, rs[0]);
      RunCons(d, rs);
      var obs := Run(d, rs).observations;
      var obs' := Run(s.next, rs[1..]).observations;
      assert obs == [s.out] + obs';
      if rs[0].Failed? {
        VerdictFollowsSeed(s.next, rs[1..]);
        forall i | 0 <= i < |rs| && obs[i].Judged?
          ensures exists j :: 0 <= j < i && obs[j] == Seeded
        {
          assert obs[i] == obs'[i - 1];
          var j :| 0 <= j < i - 1 && obs'[j] == Seeded;
          assert obs[j + 1] == Seeded;
        }
      } else {
        assert obs[0] == Seeded;
      }
    }
  }

  /** From the constructor's state, exactly the first successful read seeds. */
  lemma {:induction false} InitSeedsFirstFrame(rs: seq<Read>)
    requires Uniform(None, rs)
    ensures forall i :: 0 <= i < |rs| ==>
              (Run(Init(), rs).observations[i] == Seeded <==>
               rs[i].Got? && forall j :: 0 <= j < i ==> rs[j].Failed?)
  {
    FirstFrameSeeds(Init(), rs);
  }

  /** Two consecutive identical grey frames: the second is always static when
      the threshold is positive, whatever the first one did. */
  lemma IdenticalFramesAreStatic(d: Detector, f1: Frame, f2: Frame)
    requires Fits(d.reference, Got(f1))
    requires f2.gray == f1.gray
    requires d.threshold > 0
    ensures Step(Step(d, Got(f1)).next, Got(f2)).out == Judged(Static)
  {
  }
}
