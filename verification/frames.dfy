/** Grey frames, camera reads and the absolute-difference metric shared by the
    three stillness detectors of the camera monitor.

    A camera frame is taken as already converted to grey: the colour pixels are
    carried along only because the monitor displays or submits the colour frame,
    never the grey one. */
module Frames {

  datatype Option<+T> = None | Some(value: T)

  /** One 8-bit channel value. */
  type Pixel = x: int | 0 <= x < 256

  /** A grey image, flattened row by row. */
  type Gray = seq<Pixel>

  /** A captured frame: its colour pixels and its grey conversion. */
  datatype Frame = Frame(colour: seq<Pixel>, gray: Gray)

  /** The outcome of one camera read: `ret` false, or a frame. */
  datatype Read = Failed | Got(frame: Frame)

  datatype Verdict = Static | Moving

  /** What one detector tick produced: nothing (the read failed), the first
      reference frame (no comparison is made), or a verdict. */
  datatype Observation = NoFrame | Seeded | Judged(verdict: Verdict)

  /** The state after one step together with what the step reported. */
  datatype Stepped<S, O> = Stepped(next: S, out: O)

  /** Absolute difference of two 8-bit values, as an 8-bit value. */
  function AbsDiff(a: Pixel, b: Pixel): (d: Pixel)
    ensures d == 0 <==> a == b
    ensures a + d == b || b + d == a
  {
    if a < b then b - a else a - b
  }

  /** Sum over all pixels of the absolute grey difference. The accumulator is
      unbounded; the bound below shows it never exceeds 255 per pixel. */
  function DiffSum(a: Gray, b: Gray): (s: nat)
    requires |a| == |b|
    ensures s <= 255 * |a|
    ensures s == 0 <==> a == b
    decreases |a|
  {
    if |a| == 0 then 0
    else
      assert a == [a[0]] + a[1..] && b == [b[0]] + b[1..];
      AbsDiff(a[0], b[0]) + DiffSum(a[1..], b[1..])
  }

  /** The metric does not depend on which frame is the reference. */
  lemma {:induction false} DiffSumSymmetric(a: Gray, b: Gray)
    requires |a| == |b|
    ensures DiffSum(a, b) == DiffSum(b, a)
    decreases |a|
  {
    if |a| > 0 {
      DiffSumSymmetric(a[1..], b[1..]);
    }
  }

  lemma MulSucc(k: nat, n: nat)
    ensures k * (n + 1) == k * n + k
  {
  }

  /** If no pixel differs by more than `k`, the sum is at most `k` per pixel. */
  lemma {:induction false} DiffSumAtMost(a: Gray, b: Gray, k: nat)
    requires |a| == |b|
    requires forall i :: 0 <= i < |a| ==> AbsDiff(a[i], b[i]) <= k
    ensures DiffSum(a, b) <= k * |a|
    decreases |a|
  {
    if |a| > 0 {
      var a', b' := a[1..], b[1..];
      forall i | 0 <= i < |a'|
        ensures AbsDiff(a'[i], b'[i]) <= k
      {
        assert a'[i] == a[i + 1] && b'[i] == b[i + 1];
      }
      DiffSumAtMost(a', b', k);
      var n := |a'|;
      assert DiffSum(a, b) == AbsDiff(a[0], b[0]) + DiffSum(a', b');
      assert AbsDiff(a[0], b[0]) <= k;
      MulSucc(k, n);
    }
  }

  /** If every pixel differs by at least `k`, the sum is at least `k` per pixel. */
  lemma {:induction false} DiffSumAtLeast(a: Gray, b: Gray, k: nat)
    requires |a| == |b|
    requires forall i :: 0 <= i < |a| ==> AbsDiff(a[i], b[i]) >= k
    ensures DiffSum(a, b) >= k * |a|
    decreases |a|
  {
    if |a| > 0 {
      var a', b' := a[1..], b[1..];
      forall i | 0 <= i < |a'|
        ensures AbsDiff(a'[i], b'[i]) >= k
      {
        assert a'[i] == a[i + 1] && b'[i] == b[i + 1];
      }
      DiffSumAtLeast(a', b', k);
      var n := |a'|;
      assert DiffSum(a, b) == AbsDiff(a[0], b[0]) + DiffSum(a', b');
      assert AbsDiff(a[0], b[0]) >= k;
      MulSucc(k, n);
    }
  }

  /** A read can be compared with the reference: both have the same size. */
  predicate Fits(reference: Option<Gray>, r: Read) {
    r.Got? && reference.Some? ==> |r.frame.gray| == |reference.value|
  }

  /** A camera delivers frames of one size: every frame of `rs` fits the
      reference it meets, whether or not the earlier frames replaced it. */
  predicate Uniform(reference: Option<Gray>, rs: seq<Read>)
    decreases |rs|
  {
    |rs| == 0 ||
    (Fits(reference, rs[0]) &&
     Uniform(if rs[0].Got? then Some(rs[0].frame.gray) else reference, rs[1..]))
  }

  /** Only the size of the reference matters to `Uniform`, and dropping the
      reference loses nothing. */
  lemma {:induction false} UniformSameSize(reference: Option<Gray>, reference': Option<Gray>, rs: seq<Read>)
    requires Uniform(reference, rs)
    requires reference'.Some? ==> reference.Some? && |reference.value| == |reference'.value|
    ensures Uniform(reference', rs)
    decreases |rs|
  {
    if |rs| > 0 && rs[0].Failed? {
      UniformSameSize(reference, reference', rs[1..]);
    }
  }

  /** After one step that keeps the reference or replaces it by the first
      frame, the remaining reads still fit. */
  lemma UniformTail(reference: Option<Gray>, rs: seq<Read>, reference': Option<Gray>)
    requires |rs| > 0 && Uniform(reference, rs)
    requires reference' == reference || (rs[0].Got? && reference' == Some(rs[0].frame.gray))
    ensures Uniform(reference', rs[1..])
  {
    var after := if rs[0].Got? then Some(rs[0].frame.gray) else reference;
    if reference' != after {
      UniformSameSize(after, reference', rs[1..]);
    }
  }

  /** Every frame of a uniform run has the size of a set reference. */
  lemma {:induction false} UniformFits(reference: Option<Gray>, rs: seq<Read>)
    requires Uniform(reference, rs)
    ensures forall i :: 0 <= i < |rs| ==> Fits(reference, rs[i])
    decreases |rs|
  {
    if |rs| > 0 {
      var after := if rs[0].Got? then Some(rs[0].frame.gray) else reference;
      UniformFits(after, rs[1..]);
      forall i | 1 <= i < |rs|
        ensures Fits(reference, rs[i])
      {
        assert rs[i] == rs[1..][i - 1];
      }
    }
  }

  /** Number of successful reads. */
  function CountGot(rs: seq<Read>): (n: nat)
    ensures n <= |rs|
  {
    if |rs| == 0 then 0 else (if rs[0].Got? then 1 else 0) + CountGot(rs[1..])
  }

  /** Number of static verdicts. */
  function CountStatic(obs: seq<Observation>): (n: nat)
    ensures n <= |obs|
  {
    if |obs| == 0 then 0 else (if obs[0] == Judged(Static) then 1 else 0) + CountStatic(obs[1..])
  }
}
