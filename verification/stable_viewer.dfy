/** The score-based stillness detector (mainSIMM.py). The structural-similarity
    score of two grey frames is an input: `similarity` stands for the library
    call and is never computed here.

    Unlike the absolute-difference detector, the reference is replaced after
    every successful read, whatever the verdict, and a separate slot keeps the
    last frame judged static. */
module StableViewer {
  import opened Frames

  /** Configured similarity threshold (mainSIMM.py:46). */
  const SimilarityThreshold: real := 0.9

  /** Structural similarity of a reference and a current grey frame. */
  type Similarity = (Gray, Gray) -> real

  /** `reference` is `prev_frame`, `staticFrame` the colour frame last judged
      static (`static_frame`). */
  datatype Viewer = Viewer(reference: Option<Gray>, threshold: real, staticFrame: Option<Frame>)

  /** The viewer as the window constructor leaves it. */
  function Init(): (v: Viewer)
    ensures v.reference.None? && v.staticFrame.None? && v.threshold == SimilarityThreshold
  {
    Viewer(None, SimilarityThreshold, None)
  }

  /** One timer tick with the given camera read. */
  function Step(v: Viewer, r: Read, similarity: Similarity): (s: Stepped<Viewer, Observation>)
    requires Fits(v.reference, r)
    ensures s.next.threshold == v.threshold
    // a failed read changes nothing
    ensures s.out == NoFrame <==> r.Failed?
    ensures r.Failed? ==> s.next == v
    // every successful read becomes the reference, whatever the verdict
    ensures r.Got? ==> s.next.reference == Some(r.frame.gray)
    // with no reference there is no verdict
    ensures s.out == Seeded <==> r.Got? && v.reference.None?
    // static exactly when the score is strictly above the threshold
    ensures r.Got? && v.reference.Some? ==>
              (s.out == Judged(Static) <==> similarity(v.reference.value, r.frame.gray) > v.threshold)
    // only a static verdict overwrites the static slot
    ensures s.out == Judged(Static) ==> s.next.staticFrame == Some(r.frame)
    ensures s.out != Judged(Static) ==> s.next.staticFrame == v.staticFrame
  {
    match r
    case Failed => Stepped(v, NoFrame)
    case Got(f) =>
      match v.reference
      case None => Stepped(v.(reference := Some(f.gray)), Seeded)
      case Some(prev) =>
        if similarity(prev, f.gray) > v.threshold then
          Stepped(v.(reference := Some(f.gray), staticFrame := Some(f)), Judged(Static))
        else
          Stepped(v.(reference := Some(f.gray)), Judged(Moving))
  }

  /** The final viewer and the observation of every tick. */
  datatype Trace = Trace(last: Viewer, observations: seq<Observation>)

  /** Ticks the viewer once per read, in order. */
  function Run(v: Viewer, rs: seq<Read>, similarity: Similarity): (t: Trace)
    requires Uniform(v.reference, rs)
    ensures |t.observations| == |rs|
    ensures forall i :: 0 <= i < |rs| ==> (t.observations[i] == NoFrame <==> rs[i].Failed?)
    ensures t.last.threshold == v.threshold
    decreases |rs|
  {
    if |rs| == 0 then Trace(v, [])
    else
      var s := Step(v, rs[0], similarity);
      UniformTail(v.reference, rs, s.next.reference);
      var t := Run(s.next, rs[1..], similarity);
      Trace(t.last, [s.out] + t.observations)
  }

  /** A run is its first step followed by the run of the remaining reads. */
  lemma RunCons(v: Viewer, rs: seq<Read>, similarity: Similarity)
    requires |rs| > 0 && Uniform(v.reference, rs)
    ensures Fits(v.reference, rs[0])
    ensures Uniform(Step(v, rs[0], similarity).next.reference, rs[1..])
    ensures var s := Step(v, rs[0], similarity);
            var t := Run(s.next, rs[1..], similarity);
            Run(v, rs, similarity) == Trace(t.last, [s.out] + t.observations)
  {
  }

  /** The reference is the grey image of the last successful read; with no
      successful read it is unchanged. */
  lemma {:induction false} ReferenceIsLastFrame(v: Viewer, rs: seq<Read>, similarity: Similarity)
    requires Uniform(v.reference, rs)
    ensures (forall k :: 0 <= k < |rs| ==> rs[k].Failed?) ==> Run(v, rs, similarity).last.reference == v.reference
    ensures forall k :: 0 <= k < |rs| && rs[k].Got? && (forall j :: k < j < |rs| ==> rs[j].Failed?)
                        ==> Run(v, rs, similarity).last.reference == Some(rs[k].frame.gray)
    decreases |rs|
  {
    if |rs| > 0 {
      var s := Step(v, rs[0], similarity);
      RunCons(v, rs, similarity);
      ReferenceIsLastFrame(s.next, rs[1..], similarity);
      assert forall k :: 1 <= k < |rs| ==> rs[k] == rs[1..][k - 1];
    }
  }

  /** The static slot holds the frame of the last static verdict; with no
      static verdict it is unchanged. */
  lemma {:induction false} StaticFrameIsLastStatic(v: Viewer, rs: seq<Read>, similarity: Similarity)
    requires Uniform(v.reference, rs)
    ensures var t := Run(v, rs, similarity);
            (forall k :: 0 <= k < |rs| ==> t.observations[k] != Judged(Static)) ==> t.last.staticFrame == v.staticFrame
    ensures var t := Run(v, rs, similarity);
            forall k :: 0 <= k < |rs| && t.observations[k] == Judged(Static)
                        && (forall j :: k < j < |rs| ==> t.observations[j] != Judged(Static))
                        ==> rs[k].Got? && t.last.staticFrame == Some(rs[k].frame)
    decreases |rs|
  {
    if |rs| > 0 {
      var s := Step(v, rs[0], similarity);
      RunCons(v, rs, similarity);
      StaticFrameIsLastStatic(s.next, rs[1..], similarity);
      var t := Run(v, rs, similarity);
      var t' := Run(s.next, rs[1..], similarity);
      assert t.last == t'.last;
      assert t.observations == [s.out] + t'.observations;
      assert forall k :: 1 <= k < |rs| ==> t.observations[k] == t'.observations[k - 1] && rs[k] == rs[1..][k - 1];
    }
  }

  /** Nothing is ever put in an empty static slot before the reference exists. */
  lemma {:induction false} StaticFrameNeedsOneRead(v: Viewer, rs: seq<Read>, similarity: Similarity)
    requires Uniform(v.reference, rs)
    requires v.staticFrame.None?
    ensures Run(v, rs, similarity).last.staticFrame.Some? ==> CountGot(rs) >= 1
    decreases |rs|
  {
    if |rs| > 0 {
      var s := Step(v, rs[0], similarity);
      RunCons(v, rs, similarity);
      if rs[0].Failed? {
        StaticFrameNeedsOneRead(s.next, rs[1..], similarity);
      }
    }
  }

  /** The static slot stays empty until at least two frames have been read:
      the first one only becomes the reference. */
  lemma {:induction false} StaticFrameNeedsTwoReads(v: Viewer, rs: seq<Read>, similarity: Similarity)
    requires Uniform(v.reference, rs)
    requires v.reference.None? && v.staticFrame.None?
    ensures Run(v, rs, similarity).last.staticFrame.Some? ==> CountGot(rs) >= 2
    decreases |rs|
  {
    if |rs| > 0 {
      var s := Step(v, rs[0], similarity);
      RunCons(v, rs, similarity);
      if rs[0].Failed? {
        StaticFrameNeedsTwoReads(s.next, rs[1..], similarity);
      } else {
        StaticFrameNeedsOneRead(s.next, rs[1..], similarity);
      }
    }
  }

  /** From the constructor's state, the static slot stays empty until two
      frames have been read. */
  lemma {:induction false} InitNeedsTwoReads(rs: seq<Read>, similarity: Similarity)
    requires Uniform(None, rs)
    ensures Run(Init(), rs, similarity).last.staticFrame.Some? ==> CountGot(rs) >= 2
  {
    StaticFrameNeedsTwoReads(Init(), rs, similarity);
  }

  /** The comparison is local: a run of frames each similar enough to its
      immediate predecessor is static throughout, however far the scene drifts
      from the first frame. */
  lemma {:induction false} LocalComparison(v: Viewer, rs: seq<Read>, similarity: Similarity)
    requires Uniform(v.reference, rs)
    requires forall i :: 0 <= i < |rs| ==> rs[i].Got?
    requires v.reference.Some?
    requires |rs| > 0 ==> similarity(v.reference.value, rs[0].frame.gray) > v.threshold
    requires forall i :: 0 < i < |rs| ==> similarity(rs[i - 1].frame.gray, rs[i].frame.gray) > v.threshold
    ensures forall i :: 0 <= i < |rs| ==> Run(v, rs, similarity).observations[i] == Judged(Static)
    decreases |rs|
  {
    if |rs| > 0 {
      var s := Step(v, rs[0], similarity);
      RunCons(v, rs, similarity);
      assert forall i :: 0 <= i < |rs| - 1 ==> rs[1..][i] == rs[i + 1];
      LocalComparison(s.next, rs[1..], similarity);
      var t := Run(v, rs, similarity);
      var t' := Run(s.next, rs[1..], similarity);
      assert t.observations == [s.out] + t'.observations;
      assert forall i :: 1 <= i < |rs| ==> t.observations[i] == t'.observations[i - 1];
    }
  }

  /** A frame identical to the reference scores 1, which is above any
      threshold below 1: it is static. */
  lemma SelfSimilarIsStatic(v: Viewer, f: Frame, similarity: Similarity)
    requires v.reference == Some(f.gray)
    requires similarity(f.gray, f.gray) == 1.0 && v.threshold < 1.0
    ensures Step(v, Got(f), similarity).out == Judged(Static)
    ensures Step(v, Got(f), similarity).next.staticFrame == Some(f)
  {
  }

  /** The threshold is strict: a score exactly at the threshold is moving. */
  lemma ScoreAtThresholdMoves(v: Viewer, f: Frame, similarity: Similarity)
    requires Fits(v.reference, Got(f)) && v.reference.Some?
    requires similarity(v.reference.value, f.gray) == v.threshold
    ensures Step(v, Got(f), similarity).out == Judged(Moving)
    ensures Step(v, Got(f), similarity).next.staticFrame == v.staticFrame
  {
  }
}
