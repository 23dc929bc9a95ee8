/**
  The extraction driver: it prepares the image folder, settles the subtitle
  region, runs the detector over every scene and saves one image per
  interval under a name built from the interval's first and last frame
  times. Also the parsing of the `--roi` command-line argument.

  The folder is a map from file names to contents; the video is the
  sequence of its frames, and each scene's seek is followed by a given
  number of successful reads; cropping, the difference score and the
  interactive region selection are parameters.
*/
module Extractor {
  import opened Wrappers
  import opened Text
  import opened Numerals
  import opened Timestamp
  import opened Detector

  /** `(y1, y2, x1, x2)`: the rows and then the columns of the subtitle region. */
  datatype Rect = Rect(y1: int, y2: int, x1: int, x2: int)

  /** A scene as the scene detector reports it: the frames `[first, end)`. */
  datatype Scene = Scene(first: nat, end: nat)

  /** How `main` ends: no region chosen, no scene found, or the number of images saved. */
  datatype Outcome = NoRegion | NoScenes | Finished(saved: nat)

  /** `int(fps * 0.2)`, the debounce in frames. */
  function DebounceFrames(fps: real): int {
    Trunc(fps * 0.2)
  }

  /** `f"{start_time_str}__{end_time_str}.png"` */
  function ImageName(start: int, end: int, fps: real): string {
    FramesToTimeStr(start, fps) + "__" + FramesToTimeStr(end, fps) + ".png"
  }

  lemma ImageNameIsPng(start: int, end: int, fps: real)
    ensures EndsWith(ImageName(start, end, fps), ".png")
  {
    var name := ImageName(start, end, fps);
    assert name[|name| - 4..] == ".png";
  }

  // ---------------------------------------------------------------------
  // The temporary folder
  // ---------------------------------------------------------------------

  /** The folder after the wipe: created empty, or with its `.png` files removed. */
  function Wiped<D>(existing: Option<map<string, D>>): map<string, D> {
    match existing
    case None => map[]
    case Some(folder) => map name | name in folder && !EndsWith(name, ".png") :: folder[name]
  }

  /** The loop over `os.listdir` removing every name that ends in `.png`. */
  method ClearImages<D>(folder: map<string, D>) returns (kept: map<string, D>)
    ensures forall name :: name in kept <==> name in folder && !EndsWith(name, ".png")
    ensures forall name :: name in kept ==> kept[name] == folder[name]
  {
    kept := folder;
    var listing := folder.Keys;
    while listing != {}
      invariant listing <= folder.Keys
      invariant forall name :: name in kept <==> name in folder && (name in listing || !EndsWith(name, ".png"))
      invariant forall name :: name in kept ==> kept[name] == folder[name]
      decreases listing
    {
      var f :| f in listing;
      if EndsWith(f, ".png") {
        kept := kept - {f};
      }
      listing := listing - {f};
    }
  }

  /** Create the folder when it does not exist, else clear its images. */
  method PrepareFolder<D>(existing: Option<map<string, D>>) returns (folder: map<string, D>)
    ensures folder == Wiped(existing)
  {
    match existing
    case None =>
      folder := map[];
    case Some(current) =>
      folder := ClearImages(current);
  }

  // ---------------------------------------------------------------------
  // All scenes
  // ---------------------------------------------------------------------

  /** `frame[y1:y2, x1:x2]` of every frame of the video. */
  function Regions<Frame, Img>(video: seq<Frame>, rect: Rect, crop: (Frame, Rect) -> Img): (r: seq<Img>)
    ensures |r| == |video|
  {
    seq(|video|, i requires 0 <= i < |video| => crop(video[i], rect))
  }

  /**
    The intervals of every scene, scene after scene. After the seek for the
    `i`-th scene, `readable(i)` reads succeed before the first one fails.
  */
  function AllIntervals<F>(cfg: Config<F>, regions: seq<F>, scenes: seq<Scene>, readable: nat -> nat): seq<Interval<F>>
    decreases |scenes|
  {
    if scenes == [] then []
    else
      var i := |scenes| - 1;
      var sc := scenes[i];
      AllIntervals(cfg, regions, scenes[..i], readable)
        + SceneIntervals(cfg, Window(regions, sc.first, sc.end, readable(i)), sc.first, sc.end)
  }

  /** The `cv2.imwrite` calls for the intervals, in order: file name and image. */
  function Writes<D>(ivs: seq<Interval<D>>, nameOf: (int, int) -> string): (w: seq<(string, D)>)
    ensures |w| == |ivs|
    decreases |ivs|
  {
    if ivs == [] then []
    else
      var iv := ivs[|ivs| - 1];
      Writes(ivs[..|ivs| - 1], nameOf) + [(nameOf(iv.start, iv.end), iv.image)]
  }

  /** The file name of an interval's image at frame rate `fps`. */
  function Namer(fps: real): (int, int) -> string {
    (start, end) => ImageName(start, end, fps)
  }

  /** A folder after writing files in order; a later write to a name replaces an earlier one. */
  function Store<K, V>(folder: map<K, V>, writes: seq<(K, V)>): map<K, V>
    decreases |writes|
  {
    if writes == [] then folder
    else
      var w := writes[|writes| - 1];
      Store(folder, writes[..|writes| - 1])[w.0 := w.1]
  }

  lemma WritesSnoc<D>(ivs: seq<Interval<D>>, iv: Interval<D>, nameOf: (int, int) -> string)
    ensures Writes(ivs + [iv], nameOf) == Writes(ivs, nameOf) + [(nameOf(iv.start, iv.end), iv.image)]
  {
    assert (ivs + [iv])[..|ivs|] == ivs;
  }

  lemma StoreSnoc<K, V>(folder: map<K, V>, writes: seq<(K, V)>, w: (K, V))
    ensures Store(folder, writes + [w]) == Store(folder, writes)[w.0 := w.1]
  {
    assert (writes + [w])[..|writes|] == writes;
  }

  /** Saving one more found interval stores its image under its name. */
  lemma SaveStep<D>(base: map<string, D>, done: seq<Interval<D>>, found: seq<Interval<D>>, j: nat, nameOf: (int, int) -> string)
    requires j < |found|
    ensures Store(base, Writes(done + found[..j + 1], nameOf)) ==
      Store(base, Writes(done + found[..j], nameOf))[nameOf(found[j].start, found[j].end) := found[j].image]
  {
    var iv := found[j];
    WritesSnoc(done + found[..j], iv, nameOf);
    StoreSnoc(base, Writes(done + found[..j], nameOf), (nameOf(iv.start, iv.end), iv.image));
    assert done + found[..j + 1] == (done + found[..j]) + [iv];
  }

  /** The intervals of one more scene follow those of the scenes before it. */
  lemma AllIntervalsStep<F>(cfg: Config<F>, regions: seq<F>, scenes: seq<Scene>, readable: nat -> nat, i: nat)
    requires i < |scenes|
    ensures AllIntervals(cfg, regions, scenes[..i + 1], readable) ==
      AllIntervals(cfg, regions, scenes[..i], readable)
        + SceneIntervals(cfg, Window(regions, scenes[i].first, scenes[i].end, readable(i)), scenes[i].first, scenes[i].end)
  {
    assert scenes[..i + 1][..i] == scenes[..i];
  }

  /** Save the images of one scene's intervals, counting them. */
  method SaveIntervals<D>(found: seq<Interval<D>>, nameOf: (int, int) -> string, folder: map<string, D>, ghost done: seq<Interval<D>>,
                          ghost base: map<string, D>, total: nat)
    returns (total': nat, folder': map<string, D>)
    requires total == |done| && folder == Store(base, Writes(done, nameOf))
    ensures total' == |done + found| && folder' == Store(base, Writes(done + found, nameOf))
  {
    total', folder' := total, folder;
    var j := 0;
    assert done + found[..j] == done;
    while j < |found|
      invariant 0 <= j <= |found|
      invariant total' == |done| + j
      invariant folder' == Store(base, Writes(done + found[..j], nameOf))
    {
      var iv := found[j];
      var name := nameOf(iv.start, iv.end);
      SaveStep(base, done, found, j, nameOf);
      folder' := folder'[name := iv.image];
      total' := total' + 1;
      j := j + 1;
    }
    TakeAll(found);
  }

  /** The loop over the scenes: detect each scene's intervals and save their images. */
  method ScanScenes<F>(cfg: Config<F>, regions: seq<F>, scenes: seq<Scene>, readable: nat -> nat,
                       nameOf: (int, int) -> string, folder: map<string, F>)
    returns (total: nat, folder': map<string, F>)
    ensures total == |AllIntervals(cfg, regions, scenes, readable)|
    ensures folder' == Store(folder, Writes(AllIntervals(cfg, regions, scenes, readable), nameOf))
  {
    folder' := folder;
    total := 0;
    var i := 0;
    while i < |scenes|
      invariant 0 <= i <= |scenes|
      invariant total == |AllIntervals(cfg, regions, scenes[..i], readable)|
      invariant folder' == Store(folder, Writes(AllIntervals(cfg, regions, scenes[..i], readable), nameOf))
    {
      var sc := scenes[i];
      var found := DetectScene(cfg, regions, sc.first, sc.end, readable(i));
      total, folder' := SaveIntervals(found, nameOf, folder', AllIntervals(cfg, regions, scenes[..i], readable), folder, total);
      AllIntervalsStep(cfg, regions, scenes, readable, i);
      i := i + 1;
    }
    TakeAll(scenes);
  }

  /**
    `main`: the wipe, the two early exits, then the detector over every
    scene with each interval's image saved as it is found.
  */
  method Extract<Frame, Img>(
    existing: Option<map<string, Img>>, roi: Option<Rect>, selected: Option<Rect>,
    scenes: seq<Scene>, video: seq<Frame>, readable: nat -> nat, fps: real, changeThreshold: real,
    crop: (Frame, Rect) -> Img, score: (Img, Img) -> nat)
    returns (outcome: Outcome, folder: map<string, Img>)
    ensures outcome == NoRegion <==> roi.None? && selected.None?
    ensures outcome == NoScenes <==> (roi.Some? || selected.Some?) && scenes == []
    ensures !outcome.Finished? ==> folder == Wiped(existing)
    ensures outcome.Finished? ==>
      var rect := if roi.Some? then roi.value else selected.value;
      var ivs := AllIntervals(Config(score, changeThreshold, DebounceFrames(fps)), Regions(video, rect, crop), scenes, readable);
      outcome.saved == |ivs| && folder == Store(Wiped(existing), Writes(ivs, Namer(fps)))
  {
    folder := PrepareFolder(existing);
    var cropRect := if roi.Some? then roi else selected;
    if cropRect.None? {
      return NoRegion, folder;
    }
    if |scenes| == 0 {
      return NoScenes, folder;
    }
    var cfg := Config(score, changeThreshold, DebounceFrames(fps));
    var regions := Regions(video, cropRect.value, crop);
    var total;
    total, folder := ScanScenes(cfg, regions, scenes, readable, Namer(fps), folder);
    outcome := Finished(total);
  }

  /** A name is in the folder after the writes iff it was there before or some write used it. */
  lemma {:induction false} StoreNames<K, V>(folder: map<K, V>, writes: seq<(K, V)>, name: K)
    ensures name in Store(folder, writes) <==>
      name in folder || exists k :: 0 <= k < |writes| && writes[k].0 == name
    decreases |writes|
  {
    if writes != [] {
      var init := writes[..|writes| - 1];
      StoreNames(folder, init, name);
      if exists k :: 0 <= k < |writes| && writes[k].0 == name {
        var k :| 0 <= k < |writes| && writes[k].0 == name;
        if k < |init| {
          assert init[k] == writes[k];
        }
      }
    }
  }

  /** A name that no write uses keeps what it held. */
  lemma {:induction false} StoreUntouched<K, V>(folder: map<K, V>, writes: seq<(K, V)>, name: K)
    requires name in folder
    requires forall k :: 0 <= k < |writes| ==> writes[k].0 != name
    ensures name in Store(folder, writes) && Store(folder, writes)[name] == folder[name]
    decreases |writes|
  {
    if writes != [] {
      var init := writes[..|writes| - 1];
      assert forall k :: 0 <= k < |init| ==> init[k] == writes[k];
      StoreUntouched(folder, init, name);
    }
  }

  /** A name holds what the last write to it wrote. */
  lemma {:induction false} StoreLastWins<K, V>(folder: map<K, V>, writes: seq<(K, V)>, k: int)
    requires 0 <= k < |writes|
    requires forall m :: k < m < |writes| ==> writes[m].0 != writes[k].0
    ensures writes[k].0 in Store(folder, writes)
    ensures Store(folder, writes)[writes[k].0] == writes[k].1
    decreases |writes|
  {
    if k < |writes| - 1 {
      var init := writes[..|writes| - 1];
      assert init[k] == writes[k];
      StoreLastWins(folder, init, k);
    }
  }

  /** The `k`-th write saves the `k`-th interval's image under its name. */
  lemma {:induction false} WritesAt<D>(ivs: seq<Interval<D>>, nameOf: (int, int) -> string, k: int)
    requires 0 <= k < |ivs|
    ensures Writes(ivs, nameOf)[k] == (nameOf(ivs[k].start, ivs[k].end), ivs[k].image)
    decreases |ivs|
  {
    if k < |ivs| - 1 {
      var init := ivs[..|ivs| - 1];
      WritesAt(init, nameOf, k);
      assert init[k] == ivs[k];
    }
  }

  /**
    After a finished run the folder's images are exactly the intervals'
    images, none left over from an earlier run and none missing, and its
    other files are those it had before.
  */
  lemma ExtractImages<D>(existing: Option<map<string, D>>, ivs: seq<Interval<D>>, fps: real, name: string)
    ensures EndsWith(name, ".png") ==>
      (name in Store(Wiped(existing), Writes(ivs, Namer(fps))) <==>
       exists k :: 0 <= k < |ivs| && ImageName(ivs[k].start, ivs[k].end, fps) == name)
    ensures !EndsWith(name, ".png") ==>
      (name in Store(Wiped(existing), Writes(ivs, Namer(fps))) <==> existing.Some? && name in existing.value)
    ensures !EndsWith(name, ".png") && existing.Some? && name in existing.value ==>
      Store(Wiped(existing), Writes(ivs, Namer(fps)))[name] == existing.value[name]
  {
    var writes := Writes(ivs, Namer(fps));
    StoreNames(Wiped(existing), writes, name);
    if !EndsWith(name, ".png") && existing.Some? && name in existing.value {
      forall k | 0 <= k < |writes| ensures writes[k].0 != name {
        WritesAt(ivs, Namer(fps), k);
        ImageNameIsPng(ivs[k].start, ivs[k].end, fps);
      }
      StoreUntouched(Wiped(existing), writes, name);
    }
    if exists k :: 0 <= k < |writes| && writes[k].0 == name {
      var k :| 0 <= k < |writes| && writes[k].0 == name;
      WritesAt(ivs, Namer(fps), k);
      ImageNameIsPng(ivs[k].start, ivs[k].end, fps);
    }
    if exists k :: 0 <= k < |ivs| && ImageName(ivs[k].start, ivs[k].end, fps) == name {
      var k :| 0 <= k < |ivs| && ImageName(ivs[k].start, ivs[k].end, fps) == name;
      WritesAt(ivs, Namer(fps), k);
    }
  }

  /** Every interval of every scene lies inside its scene, after the scene's first frame. */
  lemma {:induction false} AllIntervalsInScenes<F>(cfg: Config<F>, regions: seq<F>, scenes: seq<Scene>, readable: nat -> nat, iv: Interval<F>)
    requires iv in AllIntervals(cfg, regions, scenes, readable)
    ensures exists k :: 0 <= k < |scenes| && scenes[k].first < iv.start <= iv.end <= scenes[k].end - 1
    ensures iv.end > iv.start + cfg.minDuration
    decreases |scenes|
  {
    var init := scenes[..|scenes| - 1];
    var sc := scenes[|scenes| - 1];
    if iv in AllIntervals(cfg, regions, init, readable) {
      AllIntervalsInScenes(cfg, regions, init, readable, iv);
      var k :| 0 <= k < |init| && init[k].first < iv.start <= iv.end <= init[k].end - 1;
      assert scenes[k] == init[k];
    } else {
      SceneIntervalsBounds(cfg, Window(regions, sc.first, sc.end, readable(|scenes| - 1)), sc.first, sc.end, iv);
    }
  }

  // ---------------------------------------------------------------------
  // --roi
  // ---------------------------------------------------------------------

  /** What `--roi` asks for: the interactive selection, a fixed region, or an exit with status 1. */
  datatype RoiChoice = Interactive | Fixed(rect: Rect) | Invalid

  /** `y1, y2, x1, x2 = map(int, args.roi.split(','))`, with `ValueError` as `Invalid`. */
  function ParseRoi(arg: Option<string>): (choice: RoiChoice)
    ensures choice == Interactive <==> arg.None? || arg.value == ""
  {
    if arg.None? || arg.value == "" then Interactive
    else
      var parts := Split(arg.value, ",");
      if |parts| != 4 then Invalid
      else
        match (ParseInt(parts[0]), ParseInt(parts[1]), ParseInt(parts[2]), ParseInt(parts[3]))
        case (Some(y1), Some(y2), Some(x1), Some(x2)) => Fixed(Rect(y1, y2, x1, x2))
        case _ => Invalid
  }

  /** The argument text for a region: `f"{y1},{y2},{x1},{x2}"`. */
  function FormatRoi(r: Rect): string {
    Join(",", [IntToString(r.y1), IntToString(r.y2), IntToString(r.x1), IntToString(r.x2)])
  }

  /** Four fields that each parse as a number make a fixed region. */
  lemma RoiOfFields(arg: string, r: Rect)
    requires arg != ""
    requires Split(arg, ",") == [IntToString(r.y1), IntToString(r.y2), IntToString(r.x1), IntToString(r.x2)]
    ensures ParseRoi(Some(arg)) == Fixed(r)
  {
    IntToStringParses(r.y1);
    IntToStringParses(r.y2);
    IntToStringParses(r.x1);
    IntToStringParses(r.x2);
  }

  /** Any region written as `y1,y2,x1,x2` is read back as that region. */
  lemma ParseFormatRoi(r: Rect)
    ensures ParseRoi(Some(FormatRoi(r))) == Fixed(r)
  {
    var fields := [IntToString(r.y1), IntToString(r.y2), IntToString(r.x1), IntToString(r.x2)];
    forall k | 0 <= k < 4 ensures SepFree(fields[k], ",") {
      IntToStringChars([r.y1, r.y2, r.x1, r.x2][k], ',');
      SepFreeChar(fields[k], ',');
    }
    SplitJoin(fields, ",");
    assert |Split(FormatRoi(r), ",")| == 4;
    RoiOfFields(FormatRoi(r), r);
  }
}
