/**
  The subtitle detector run inside each scene: every frame's subtitle region
  is compared with the previous frame's, a subtitle opens on the first frame
  whose difference exceeds the threshold, and closes on the first frame
  whose difference does not. A closed subtitle is saved only when it lasts
  longer than the debounce; one still open when the scene ends is closed at
  the scene's last frame.

  The regions are opaque values of type `F`; the difference score is a
  parameter of the configuration.
*/
module Detector {
  import opened Wrappers

  /** A saved subtitle: its first and last frame numbers and the region image written for it. */
  datatype Interval<F> = Interval(start: int, end: int, image: F)

  /**
    `score(current, previous)` is `np.sum(cv2.absdiff(current, previous))`,
    `threshold` the change threshold and `minDuration` the debounce `int(fps * 0.2)`.
  */
  datatype Config<!F> = Config(score: (F, F) -> nat, threshold: real, minDuration: int)

  /** `last_img`, `subtitle_present`, `subtitle_start_frame`, and the intervals saved so far. */
  datatype State<F> = State(last: Option<F>, present: bool, startFrame: int, out: seq<Interval<F>>)

  /** The state at the start of every scene. */
  function Initial<F>(): (st: State<F>)
    ensures st.last == None && !st.present && st.out == []
  {
    State(None, false, 0, [])
  }

  /** One pass of the frame loop on the region of frame `frameNumber`. */
  function Step<F>(cfg: Config<F>, st: State<F>, frameNumber: int, region: F): State<F> {
    if st.last.None? then st.(last := Some(region))
    else
      var previous := st.last.value;
      if cfg.score(region, previous) as real > cfg.threshold then
        if st.present then st.(last := Some(region))
        else st.(last := Some(region), present := true, startFrame := frameNumber)
      else if st.present then
        var subEnd := frameNumber - 1;
        var out := if subEnd > st.startFrame + cfg.minDuration
                   then st.out + [Interval(st.startFrame, subEnd, previous)]
                   else st.out;
        State(Some(region), false, st.startFrame, out)
      else st.(last := Some(region))
  }

  /** After the frame loop: a subtitle still open ends at the scene's last frame. */
  function Flush<F>(cfg: Config<F>, st: State<F>, sceneEnd: int): State<F> {
    if st.present && st.last.Some? && sceneEnd - 1 > st.startFrame + cfg.minDuration then
      st.(out := st.out + [Interval(st.startFrame, sceneEnd - 1, st.last.value)])
    else st
  }

  /**
    The regions the frame loop reads for the scene `[first, sceneEnd)`:
    decoding starts at `first` after a seek, and stops at the scene end, at
    the first frame the video does not have, or after the `readable` frames
    that `cap.read()` returns before its first failure.
  */
  function Window<F>(regions: seq<F>, first: nat, sceneEnd: nat, readable: nat): (w: seq<F>)
    ensures forall k :: 0 <= k < |w| ==> first + k < |regions| && w[k] == regions[first + k]
    ensures |w| <= readable
    ensures w == [] || (first + |w| <= sceneEnd && first + |w| <= |regions|)
    ensures first + |w| >= sceneEnd || first + |w| >= |regions| || |w| == readable
  {
    var stop := Min(Min(sceneEnd, |regions|), first + readable);
    if first < stop then regions[first..stop] else []
  }

  function Min(a: int, b: int): int {
    if a < b then a else b
  }

  /** The state after the first `k` frames of the window, the first being frame `first`. */
  function Scan<F>(cfg: Config<F>, w: seq<F>, first: int, k: nat): State<F>
    requires k <= |w|
  {
    if k == 0 then Initial() else Step(cfg, Scan(cfg, w, first, k - 1), first + k - 1, w[k - 1])
  }

  /** The intervals saved for one scene whose frame loop read the window `w`. */
  function SceneIntervals<F>(cfg: Config<F>, w: seq<F>, first: int, sceneEnd: int): seq<Interval<F>> {
    Flush(cfg, Scan(cfg, w, first, |w|), sceneEnd).out
  }

  // ---------------------------------------------------------------------
  // What the frame loop computes, stated without the loop
  // ---------------------------------------------------------------------

  /** Window position `i` differs from the one before it by more than the threshold. */
  ghost predicate Changed<F>(cfg: Config<F>, w: seq<F>, i: int) {
    1 <= i < |w| && cfg.score(w[i], w[i - 1]) as real > cfg.threshold
  }

  /** Positions `s..e` all changed, and `s` is where that run of changes begins. */
  ghost predicate Run<F>(cfg: Config<F>, w: seq<F>, s: int, e: int) {
    && 1 <= s <= e < |w|
    && !Changed(cfg, w, s - 1)
    && forall i :: s <= i <= e ==> Changed(cfg, w, i)
  }

  /** A run that the frame after it ends. */
  ghost predicate ClosedRun<F>(cfg: Config<F>, w: seq<F>, s: int, e: int) {
    Run(cfg, w, s, e) && e + 1 < |w| && !Changed(cfg, w, e + 1)
  }

  /** `iv` is the interval saved for a closed run, with the run's last region. */
  ghost predicate EmitsClosed<F>(cfg: Config<F>, w: seq<F>, first: int, iv: Interval<F>) {
    && ClosedRun(cfg, w, iv.start - first, iv.end - first)
    && iv.image == w[iv.end - first]
    && iv.end > iv.start + cfg.minDuration
  }

  /** `iv` is the interval saved for the run still open at the end of the window. */
  ghost predicate EmitsOpen<F>(cfg: Config<F>, w: seq<F>, first: int, sceneEnd: int, iv: Interval<F>) {
    && Run(cfg, w, iv.start - first, |w| - 1)
    && iv.end == sceneEnd - 1
    && iv.image == w[|w| - 1]
    && iv.end > iv.start + cfg.minDuration
  }

  ghost predicate Emits<F>(cfg: Config<F>, w: seq<F>, first: int, sceneEnd: int, iv: Interval<F>) {
    EmitsClosed(cfg, w, first, iv) || EmitsOpen(cfg, w, first, sceneEnd, iv)
  }

  /** Increasing, with at least one frame between one interval and the next. */
  ghost predicate Ordered<F>(out: seq<Interval<F>>) {
    forall i, j :: 0 <= i < j < |out| ==> out[i].end + 1 < out[j].start
  }

  /** What holds of the state after `k` frames of the window. */
  ghost predicate ScanInv<F>(cfg: Config<F>, w: seq<F>, first: int, k: nat, st: State<F>)
    requires k <= |w|
  {
    && (if k == 0 then st.last == None else st.last == Some(w[k - 1]))
    && (st.present <==> k >= 1 && Changed(cfg, w, k - 1))
    && (st.present ==> Run(cfg, w, st.startFrame - first, k - 1))
    && (st.present ==> forall iv :: iv in st.out ==> iv.end + 1 < st.startFrame)
    && (forall iv :: iv in st.out ==> EmitsClosed(cfg, w, first, iv) && iv.end - first + 1 < k)
    && (forall s, e :: ClosedRun(cfg, w, s, e) && e + 1 < k && e > s + cfg.minDuration ==>
          Interval(first + s, first + e, w[e]) in st.out)
    && Ordered(st.out)
  }

  /** A run is determined by where it ends. */
  lemma RunStartUnique<F>(cfg: Config<F>, w: seq<F>, s1: int, s2: int, e: int)
    requires Run(cfg, w, s1, e) && Run(cfg, w, s2, e)
    ensures s1 == s2
  {
    assert s1 <= s2 - 1 ==> Changed(cfg, w, s2 - 1);
    assert s2 <= s1 - 1 ==> Changed(cfg, w, s1 - 1);
  }

  /** An interval after every saved one, by more than a frame, keeps the saved ones in order. */
  lemma OrderedAppend<F>(out: seq<Interval<F>>, iv: Interval<F>)
    requires Ordered(out) && forall x :: x in out ==> x.end + 1 < iv.start
    ensures Ordered(out + [iv])
  {
    var out' := out + [iv];
    forall i, j | 0 <= i < j < |out'| ensures out'[i].end + 1 < out'[j].start {
      if j == |out| { assert out'[i] in out; }
    }
  }

  /** The closed run that frame `k - 1` ends is the open subtitle's run, so it is saved when long enough. */
  lemma ClosingRunSaved<F>(cfg: Config<F>, w: seq<F>, first: int, k: nat, st: State<F>, out': seq<Interval<F>>)
    requires 2 <= k <= |w|
    requires ScanInv(cfg, w, first, k - 1, st)
    requires st.present && !Changed(cfg, w, k - 1)
    requires var iv := Interval(st.startFrame, first + k - 2, w[k - 2]);
      out' == if iv.end > iv.start + cfg.minDuration then st.out + [iv] else st.out
    ensures forall s, e :: ClosedRun(cfg, w, s, e) && e + 1 < k && e > s + cfg.minDuration ==>
      Interval(first + s, first + e, w[e]) in out'
  {
    var sf := st.startFrame - first;
    var iv := Interval(st.startFrame, first + k - 2, w[k - 2]);
    assert forall x :: x in st.out ==> x in out';
    forall s, e | ClosedRun(cfg, w, s, e) && e + 1 < k && e > s + cfg.minDuration
      ensures Interval(first + s, first + e, w[e]) in out'
    {
      if e + 1 == k - 1 {
        RunStartUnique(cfg, w, s, sf, e);
        assert Interval(first + s, first + e, w[e]) == iv;
        assert out' == st.out + [iv];
      } else {
        assert Interval(first + s, first + e, w[e]) in st.out;
      }
    }
  }

  /** A frame that ends the open subtitle keeps the invariant. */
  lemma StepCloses<F>(cfg: Config<F>, w: seq<F>, first: int, k: nat, st: State<F>)
    requires 2 <= k <= |w|
    requires ScanInv(cfg, w, first, k - 1, st)
    requires st.present && !Changed(cfg, w, k - 1)
    ensures ScanInv(cfg, w, first, k, Step(cfg, st, first + k - 1, w[k - 1]))
  {
    var st' := Step(cfg, st, first + k - 1, w[k - 1]);
    var iv := Interval(st.startFrame, first + k - 2, w[k - 2]);
    assert ClosedRun(cfg, w, st.startFrame - first, k - 2);
    assert st' == State(Some(w[k - 1]), false, st.startFrame,
      if iv.end > iv.start + cfg.minDuration then st.out + [iv] else st.out);
    ClosingRunSaved(cfg, w, first, k, st, st'.out);
    if iv.end > iv.start + cfg.minDuration {
      OrderedAppend(st.out, iv);
    }
  }

  /** Any other frame keeps the invariant. */
  lemma StepOther<F>(cfg: Config<F>, w: seq<F>, first: int, k: nat, st: State<F>)
    requires 1 <= k <= |w|
    requires ScanInv(cfg, w, first, k - 1, st)
    requires !(k >= 2 && st.present && !Changed(cfg, w, k - 1))
    ensures ScanInv(cfg, w, first, k, Step(cfg, st, first + k - 1, w[k - 1]))
  {
    var st' := Step(cfg, st, first + k - 1, w[k - 1]);
    assert st'.out == st.out;
    forall s, e | ClosedRun(cfg, w, s, e) && e + 1 < k && e > s + cfg.minDuration
      ensures Interval(first + s, first + e, w[e]) in st'.out
    {
      assert e + 1 == k - 1 ==> Changed(cfg, w, e);
    }
  }

  lemma {:induction false} ScanInvariant<F>(cfg: Config<F>, w: seq<F>, first: int, k: nat)
    requires k <= |w|
    ensures ScanInv(cfg, w, first, k, Scan(cfg, w, first, k))
  {
    if k > 0 {
      ScanInvariant(cfg, w, first, k - 1);
      var st := Scan(cfg, w, first, k - 1);
      if k >= 2 && st.present && !Changed(cfg, w, k - 1) {
        StepCloses(cfg, w, first, k, st);
      } else {
        StepOther(cfg, w, first, k, st);
      }
    }
  }

  /**
    The intervals of a scene are exactly those of its closed runs of
    changes and of the run still open when reading stops, each saved only
    when it lasts longer than the debounce.
  */
  lemma SceneIntervalsExact<F>(cfg: Config<F>, w: seq<F>, first: int, sceneEnd: int, iv: Interval<F>)
    ensures iv in SceneIntervals(cfg, w, first, sceneEnd) <==> Emits(cfg, w, first, sceneEnd, iv)
  {
    var st := Scan(cfg, w, first, |w|);
    ScanInvariant(cfg, w, first, |w|);
    if EmitsClosed(cfg, w, first, iv) {
      var s, e := iv.start - first, iv.end - first;
      assert Interval(first + s, first + e, w[e]) == iv;
    }
    if EmitsOpen(cfg, w, first, sceneEnd, iv) {
      RunStartUnique(cfg, w, iv.start - first, st.startFrame - first, |w| - 1);
    }
  }

  /** The intervals of a scene come in frame order and never touch. */
  lemma SceneIntervalsOrdered<F>(cfg: Config<F>, w: seq<F>, first: int, sceneEnd: int)
    ensures Ordered(SceneIntervals(cfg, w, first, sceneEnd))
  {
    ScanInvariant(cfg, w, first, |w|);
  }

  /**
    Every interval lies inside its scene after the scene's first frame, which
    is never compared, and lasts longer than the debounce.
  */
  lemma SceneIntervalsBounds<F>(cfg: Config<F>, w: seq<F>, first: int, sceneEnd: int, iv: Interval<F>)
    requires first + |w| <= sceneEnd
    requires iv in SceneIntervals(cfg, w, first, sceneEnd)
    ensures first < iv.start <= iv.end <= sceneEnd - 1
    ensures iv.end > iv.start + cfg.minDuration
  {
    SceneIntervalsExact(cfg, w, first, sceneEnd, iv);
  }

  /**
    The frame loop of one scene followed by the end-of-scene flush.
    `regions` are the subtitle regions of the whole video, in decoding order;
    after the seek to `first`, the first `readable` reads succeed.
  */
  method DetectScene<F>(cfg: Config<F>, regions: seq<F>, first: nat, sceneEnd: nat, readable: nat) returns (intervals: seq<Interval<F>>)
    ensures intervals == SceneIntervals(cfg, Window(regions, first, sceneEnd, readable), first, sceneEnd)
  {
    ghost var w := Window(regions, first, sceneEnd, readable);
    var lastImg: Option<F> := None;
    var present := false;
    var startFrame := 0;
    intervals := [];
    var frameNumber := first;
    while frameNumber < sceneEnd
      invariant first <= frameNumber && frameNumber - first <= |w|
      invariant Scan(cfg, w, first, frameNumber - first) == State(lastImg, present, startFrame, intervals)
      decreases sceneEnd - frameNumber
    {
      var ret := frameNumber < |regions| && frameNumber - first < readable;
      if !ret {
        break;
      }
      var region := regions[frameNumber];
      if lastImg.Some? {
        var diffScore := cfg.score(region, lastImg.value);
        if diffScore as real > cfg.threshold {
          if !present {
            present := true;
            startFrame := frameNumber;
          }
        } else {
          if present {
            var subEnd := frameNumber - 1;
            if subEnd > startFrame + cfg.minDuration {
              intervals := intervals + [Interval(startFrame, subEnd, lastImg.value)];
            }
            present := false;
          }
        }
      }
      lastImg := Some(region);
      frameNumber := frameNumber + 1;
    }
    assert frameNumber - first == |w|;
    if present && lastImg.Some? {
      var subEnd := sceneEnd - 1;
      if subEnd > startFrame + cfg.minDuration {
        intervals := intervals + [Interval(startFrame, subEnd, lastImg.value)];
      }
    }
  }
}
