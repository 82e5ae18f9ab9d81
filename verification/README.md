# Stillness detection and the processing gate of the PCB camera monitor

The monitor polls a camera every 200 ms. It decides whether the scene has
stopped moving, for example once a circuit board has been placed under the
camera. It then hands the still frame to a chain of inference workers that
count the board's pins. This project models the sequential core of that
monitor as pure state machines and proves what they do.

- `Frames` (`frames.dfy`) holds the shared vocabulary:
  - 8-bit grey pixels, and grey frames as sequences of them;
  - camera reads, which either fail or deliver a frame;
  - the three tick observations: no frame, reference seeded, verdict;
  - the per-pixel absolute-difference sum `DiffSum`.
- `MotionDetector` (`motion_detector.dfy`) is the absolute-difference detector
  of `mainCV.py`:
  - the first frame seeds the reference;
  - a later frame is static when its difference sum is strictly below
    `threshold` (1000000);
  - the reference is replaced only on motion.
- `GatedMonitor` (`gated_monitor.dfy`) is `main.py`. It runs the same detector
  behind a `processing` gate:
  - a static verdict submits the colour frame to the workers and closes the gate;
  - while the gate is closed, every tick is skipped without reading the camera;
  - a result event reopens the gate.

  The workers are opaque. A submission is a frame appended to `submitted`. A
  delivered result is an event that carries the pin count.
- `StableViewer` (`stable_viewer.dfy`) is the score-based detector of
  `mainSIMM.py`:
  - the structural-similarity score is an input function and is never computed;
  - a frame is static when the score is strictly above 0.9;
  - the reference is replaced after every successful read;
  - a separate slot keeps the last static colour frame.

Each detector has a one-tick `Step`, with a contract that covers every branch
of the source, and a `Run` that folds `Step` over a sequence of reads or
events. Lemmas about runs connect each `Step` to an independent description of
the whole history, such as "the reference is the last frame that seeded it or
was judged moving" or "submissions outnumber results by 0 or 1".

All frames of a session have one size, because a camera delivers frames of
a fixed resolution. `Step` therefore requires the frame to fit the stored
reference, and `Run` requires `Uniform`. In the source, a size mismatch would
raise an exception inside `cv2.absdiff` or `ssim`.

Four points about the code's behaviour that the model keeps:
- The first frame yields no verdict at all (`Seeded`): it only becomes the
  reference.
- In the absolute-difference detector, the reference is the first frame or the
  last frame judged moving. A static frame never replaces it.
- Nothing releases the gate except a delivered result. The code has no failure
  path and no timeout for a worker.
- Results are delivered by a blocking thread. The model treats delivery as a
  sequential event.

## Model

| member | source | states |
|---|---|---|
| Frames.DiffSum | mainCV.py:68-70 | the summed absolute grey difference is at most 255 per pixel, and it is zero exactly when the two frames are equal |
| Frames.DiffSumSymmetric | mainCV.py:69 | the difference sum does not depend on which frame is the reference |
| Frames.DiffSumAtMost | mainCV.py:69-73 | if no pixel differs by more than k, the sum is at most k per pixel, so small per-pixel noise stays under the threshold |
| Frames.DiffSumAtLeast | mainCV.py:69-73 | if every pixel differs by at least k, the sum is at least k per pixel, so large enough changes everywhere are judged moving |
| MotionDetector.Init | mainCV.py:45-47 | the constructor leaves no reference, a zero static count and the threshold 1000000 |
| MotionDetector.Step | mainCV.py:50-79 | a failed read changes nothing; the first frame only seeds the reference; later frames are static iff the difference sum is strictly below the threshold; static adds exactly 1 to the count and keeps the reference; moving replaces the reference and keeps the count |
| MotionDetector.Run | mainCV.py:50-55 | one observation per read, and an observation is "no frame" exactly when the read failed; a set reference stays set |
| MotionDetector.StaticCountIsVerdictCount | mainCV.py:46-79 | over any run, `static_count` grows by exactly the number of static verdicts, so it never decreases |
| MotionDetector.ReferenceIsLastReset | mainCV.py:63-79 | after any run, the reference is the grey image of the last read that seeded it or was judged moving, or the initial reference if there was none |
| MotionDetector.NoDrift | mainCV.py:68-79 | while every frame stays under the threshold from the stored reference, every frame is static, the reference never moves, and the count grows by one per frame |
| MotionDetector.NeverReseeds | mainCV.py:63-66 | once a reference exists, no later tick seeds again |
| MotionDetector.FirstFrameSeeds | mainCV.py:63-66 | from an empty reference, a tick seeds exactly when it is the first successful read |
| MotionDetector.VerdictFollowsSeed | mainCV.py:63-73 | from an empty reference, no verdict is given before the reference has been seeded |
| MotionDetector.InitSeedsFirstFrame | mainCV.py:45-66 | from the constructor's state, a tick seeds the reference exactly when it is the first successful read |
| MotionDetector.IdenticalFramesAreStatic | mainCV.py:63-79 | a two-tick instance of the `Step` contract: with a positive threshold, the second of two consecutive reads with identical grey frames is judged static, whatever the first one did |
| GatedMonitor.Step | main.py:58-104 | a closed gate skips the tick entirely; through an open gate the outcome is "no frame" exactly on a failed read, a seed exactly on the first frame, and a verdict on every later frame; a failed read changes nothing; the first frame only becomes the reference, with no verdict, count change or submission; a static verdict keeps the reference, adds exactly 1 to the count, closes the gate and appends exactly the frame just read to the submissions; a moving verdict only replaces the reference; a submission needs an open gate; a result reopens the gate and is reported when one was in flight, and is unclaimed otherwise |
| GatedMonitor.BusyIgnoresCamera | main.py:59-64 | an instance of the `Step` contract, stated for two reads: while processing, a tick's effect does not depend on what the camera would return, and it changes nothing |
| GatedMonitor.InitSatisfiesGate | main.py:47-56 | the constructor's state has an open gate, no reference, and satisfies the gate invariant |
| GatedMonitor.StepKeepsGate | main.py:85-104 | every tick or result preserves the gate invariant: submissions equal results plus one exactly while processing, and `static_count` equals the number of submissions |
| GatedMonitor.Run | main.py:58-104 | one outcome per event, and submissions and reported results only grow |
| GatedMonitor.RunKeepsGate | main.py:56-104 | over any sequence of ticks and results, submissions minus delivered results stays 0 or 1 |
| GatedMonitor.SubmissionsAreStaticFrames | main.py:85-96 | the input queue receives exactly the frames judged static, in the order they were judged, and nothing else |
| GatedMonitor.SubmitThenRelease | main.py:75-104 | from start-up: the first frame seeds; an identical second frame is static and submitted; a third tick is skipped while processing; the result reopens the gate and is reported |
| GatedMonitor.IdenticalFramesThroughGate | main.py:59-98 | a two-tick instance of the `Step` contract: under the configured threshold 1000000, the second of two identical frames is static, unless the first was already static and closed the gate |
| StableViewer.Init | mainSIMM.py:45-47 | the constructor leaves no reference, an empty static slot and the threshold 0.9 |
| StableViewer.Step | mainSIMM.py:54-72 | a failed read changes nothing; every successful read becomes the reference whatever the verdict; with no reference there is no verdict; static iff the score is strictly above the threshold; only a static verdict overwrites the static slot, with the current colour frame |
| StableViewer.Run | mainSIMM.py:54-57 | one observation per read, and an observation is "no frame" exactly when the read failed |
| StableViewer.ReferenceIsLastFrame | mainSIMM.py:72 | after any run, the reference is the grey image of the last successful read, or unchanged if every read failed |
| StableViewer.StaticFrameIsLastStatic | mainSIMM.py:65-70 | after any run, the static slot holds the frame of the last static verdict, or is unchanged if there was none |
| StableViewer.StaticFrameNeedsOneRead | mainSIMM.py:65-70 | an empty static slot can only be filled by a successful read |
| StableViewer.StaticFrameNeedsTwoReads | mainSIMM.py:54-72 | from an empty reference and an empty static slot, the static slot stays empty until at least two frames have been read successfully |
| StableViewer.InitNeedsTwoReads | mainSIMM.py:45-72 | from the constructor's state, the static slot stays empty until at least two frames have been read successfully |
| StableViewer.LocalComparison | mainSIMM.py:65-72 | a run of frames, each similar enough to its immediate predecessor, is static throughout, however far it drifts from the first frame |
| StableViewer.SelfSimilarIsStatic | mainSIMM.py:67-70 | a one-tick instance of the `Step` contract: a frame whose score against itself is 1, compared with a threshold below 1, is static and fills the static slot |
| StableViewer.ScoreAtThresholdMoves | mainSIMM.py:68 | a one-tick instance of the `Step` contract: the comparison is strict: a score exactly equal to the threshold is not static and leaves the static slot alone |

## Left out

- `worker1.py` is not part of this model. It holds the three inference threads, their global queues and the model loading. These involve concurrency and foreign inference code. A submission is modelled as a frame appended to `submitted`, and a result as a `ResultReady` event.
- The result-waiting thread started at main.py:96 is not modelled as a thread. Its write to `processing` races with the timer in the real program. `get_result` (main.py:100-104) is modelled as a sequential event. A `ResultReady` event while the gate is open has no waiting thread to receive it, so it changes nothing (`Unclaimed`).
- There are no stage failures and no timeouts. The code has neither. A worker that raises an exception ends its thread, and the gate then stays closed forever.
- The structural-similarity computation (mainSIMM.py:67) is a library floating-point routine. Its score is the input function `similarity`.
- The colour-to-grey conversion (`cv2.cvtColor`) uses a weighted floating-point formula. Each frame carries its grey image as given.
- Display code (`show_image`, `show_fixed_image`), window titles, status texts, camera opening and release, timer scheduling and `closeEvent` are all user interface and I/O. A camera that fails to open ends the constructor before the timer starts, so no tick ever runs. That case is not modelled.
- StableViewer.Step: the threshold 0.9 is the exact rational 9/10. The source compares a double score with the double nearest to 0.9, which is slightly larger. The two comparisons differ only for scores in that gap.
- Frames.DiffSum: numpy sums the 8-bit difference image into the platform's unsigned long, which is 32 bits wide on some platforms (Windows before NumPy 2). The model uses an unbounded sum and proves it is at most 255 per pixel, so even a 32-bit accumulator cannot wrap below about 16.8 million pixels.
- MotionDetector.Step, StableViewer.Step and GatedMonitor.Step require the frame to have the reference's size. The source would raise an exception on a mismatch instead.
