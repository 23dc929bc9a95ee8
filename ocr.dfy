/**
  The OCR step: the cleanup of the text the service returns for an image,
  the image's file name read back into SubRip start and end times, the
  blocks collected by start time as the images complete, and the numbered
  file written in sorted order.

  The OCR service itself (upload, export, delete, with its retries and its
  pool of worker threads) is a parameter from image name to downloaded text,
  and the order in which the images complete is an input.
*/
module OcrProcessor {
  import opened Wrappers
  import opened Text
  import opened Numerals
  import opened Timestamp
  import opened Srt
  import Translator
  import Extractor

  // ---------------------------------------------------------------------
  // Cleanup of the downloaded text
  // ---------------------------------------------------------------------

  /**
    The pieces of `s` between line-break characters. This is
    `s.splitlines()` except that a `\r\n` pair and a final line break each
    give one more empty piece, and those vanish once empty lines are dropped.
  */
  function LinePieces(s: string): (pieces: seq<string>)
    ensures |pieces| >= 1
    decreases |s|
  {
    if s == "" then [""]
    else
      var rest := LinePieces(s[1..]);
      if IsLineBreak(s[0]) then [""] + rest else [[s[0]] + rest[0]] + rest[1..]
  }

  /** `filter(None, pieces)`: the non-empty pieces, in order. */
  function NonEmpty(pieces: seq<string>): (lines: seq<string>)
    ensures |lines| <= |pieces|
    ensures forall k :: 0 <= k < |lines| ==> lines[k] != "" && lines[k] in pieces
    decreases |pieces|
  {
    if pieces == [] then []
    else if pieces[0] == "" then NonEmpty(pieces[1..])
    else [pieces[0]] + NonEmpty(pieces[1..])
  }

  /** `filter(None, text.splitlines())` */
  function NonEmptyLines(text: string): seq<string> {
    NonEmpty(LinePieces(text))
  }

  predicate IsUnderscoreOrSpace(c: char) {
    c == '_' || c == ' '
  }

  /**
    The post-processing of the downloaded text: the non-empty lines joined
    by single spaces, then `lstrip('_ ')`, then `strip()`.
  */
  function Cleanup(text: string): string {
    Strip(TrimStart(Join(" ", NonEmptyLines(text)), IsUnderscoreOrSpace))
  }

  /** No piece between line breaks holds a line break. */
  lemma {:induction false} LinePiecesAvoid(s: string)
    ensures forall k :: 0 <= k < |LinePieces(s)| ==> Avoids(LinePieces(s)[k], IsLineBreak)
    decreases |s|
  {
    if s != "" {
      LinePiecesAvoid(s[1..]);
      var rest := LinePieces(s[1..]);
      var pieces := LinePieces(s);
      if IsLineBreak(s[0]) {
        assert forall k :: 1 <= k < |pieces| ==> pieces[k] == rest[k - 1];
      } else {
        assert forall k :: 1 <= k < |pieces| ==> pieces[k] == rest[k];
        AppendAvoids([s[0]], rest[0], IsLineBreak);
      }
    }
  }

  /** The cleaned text is one line with no surrounding whitespace. */
  lemma CleanupShape(text: string)
    ensures Avoids(Cleanup(text), IsLineBreak)
    ensures Stripped(Cleanup(text))
  {
    var lines := NonEmptyLines(text);
    LinePiecesAvoid(text);
    JoinAvoids(" ", lines, IsLineBreak);
    var t := TrimStart(Join(" ", lines), IsUnderscoreOrSpace);
    StripAvoids(Join(" ", lines), IsUnderscoreOrSpace, IsLineBreak);
    StripAvoids(t, IsSpace, IsLineBreak);
  }

  /** A text without line breaks is one piece. */
  lemma {:induction false} LinePiecesWhole(a: string)
    requires Avoids(a, IsLineBreak)
    ensures LinePieces(a) == [a]
    decreases |a|
  {
    if a != "" {
      assert Avoids(a[1..], IsLineBreak) by {
        forall i | 0 <= i < |a[1..]| ensures !IsLineBreak(a[1..][i]) { assert a[1..][i] == a[i + 1]; }
      }
      LinePiecesWhole(a[1..]);
      assert [a[0]] + a[1..] == a;
    }
  }

  /** A line break after a line without breaks ends exactly that line. */
  lemma {:induction false} LinePiecesAfter(a: string, b: string)
    requires Avoids(a, IsLineBreak)
    ensures LinePieces(a + "\n" + b) == [a] + LinePieces(b)
    decreases |a|
  {
    var s := a + "\n" + b;
    if a == "" {
      assert s == "\n" + b;
      assert s[1..] == b;
    } else {
      assert s[0] == a[0];
      assert s[1..] == a[1..] + "\n" + b;
      assert Avoids(a[1..], IsLineBreak) by {
        forall i | 0 <= i < |a[1..]| ensures !IsLineBreak(a[1..][i]) { assert a[1..][i] == a[i + 1]; }
      }
      LinePiecesAfter(a[1..], b);
      assert [a[0]] + a[1..] == a;
    }
  }

  /** Lines without breaks, joined by line feeds, come apart into the same lines. */
  lemma {:induction false} LinePiecesJoin(lines: seq<string>)
    requires |lines| >= 1
    requires forall k :: 0 <= k < |lines| ==> Avoids(lines[k], IsLineBreak)
    ensures LinePieces(Join("\n", lines)) == lines
    decreases |lines|
  {
    if |lines| == 1 {
      LinePiecesWhole(lines[0]);
    } else {
      LinePiecesJoin(lines[1..]);
      LinePiecesAfter(lines[0], Join("\n", lines[1..]));
      assert [lines[0]] + lines[1..] == lines;
    }
  }

  lemma {:induction false} NonEmptyKeeps(pieces: seq<string>)
    requires forall k :: 0 <= k < |pieces| ==> pieces[k] != ""
    ensures NonEmpty(pieces) == pieces
    decreases |pieces|
  {
    if pieces != [] {
      NonEmptyKeeps(pieces[1..]);
      assert [pieces[0]] + pieces[1..] == pieces;
    }
  }

  /** Filtering a concatenation filters each part: the kept pieces stay in their order. */
  lemma {:induction false} NonEmptyAppend(a: seq<string>, b: seq<string>)
    ensures NonEmpty(a + b) == NonEmpty(a) + NonEmpty(b)
    decreases |a|
  {
    if a == [] {
      assert a + b == b;
    } else {
      NonEmptyAppend(a[1..], b);
      assert (a + b)[0] == a[0] && (a + b)[1..] == a[1..] + b;
      if a[0] != "" {
        assert [a[0]] + NonEmpty(a[1..]) + NonEmpty(b) == [a[0]] + (NonEmpty(a[1..]) + NonEmpty(b));
      }
    }
  }

  /** Every non-empty piece is kept. */
  lemma {:induction false} NonEmptyComplete(pieces: seq<string>, x: string)
    requires x in pieces && x != ""
    ensures x in NonEmpty(pieces)
    decreases |pieces|
  {
    if pieces[0] != x {
      assert x in pieces[1..];
      NonEmptyComplete(pieces[1..], x);
    }
  }

  /** The lines of break-free lines joined by line feeds are those lines without the empty ones. */
  lemma NonEmptyLinesJoin(lines: seq<string>)
    requires |lines| >= 1
    requires forall k :: 0 <= k < |lines| ==> Avoids(lines[k], IsLineBreak)
    ensures NonEmptyLines(Join("\n", lines)) == NonEmpty(lines)
  {
    LinePiecesJoin(lines);
  }

  /**
    Lines without breaks come out of the cleanup as their non-empty lines,
    in order, joined by single spaces, when the first and last of those
    need no trimming.
  */
  lemma CleanupJoin(lines: seq<string>)
    requires |lines| >= 1
    requires forall k :: 0 <= k < |lines| ==> Avoids(lines[k], IsLineBreak)
    requires var kept := NonEmpty(lines);
      kept != [] ==> !IsUnderscoreOrSpace(kept[0][0]) && Stripped(kept[0]) && Stripped(kept[|kept| - 1])
    ensures Cleanup(Join("\n", lines)) == Join(" ", NonEmpty(lines))
  {
    NonEmptyLinesJoin(lines);
    var kept := NonEmpty(lines);
    var joined := Join(" ", kept);
    if kept == [] {
      assert TrimStart(joined, IsUnderscoreOrSpace) == "";
      StripStripped("");
    } else {
      JoinStripped(" ", kept);
      JoinEnds(" ", kept);
      assert joined[0] == kept[0][0];
      assert TrimStart(joined, IsUnderscoreOrSpace) == joined;
      StripStripped(joined);
    }
  }

  // ---------------------------------------------------------------------
  // The image name read back as SubRip times
  // ---------------------------------------------------------------------

  /** The position of the last dot, if there is one. */
  function LastDot(s: string): (i: Option<nat>)
    ensures i.Some? ==> i.value < |s| && s[i.value] == '.' && forall j :: i.value < j < |s| ==> s[j] != '.'
    ensures i.None? ==> forall j :: 0 <= j < |s| ==> s[j] != '.'
    decreases |s|
  {
    if s == "" then None
    else if s[|s| - 1] == '.' then Some(|s| - 1)
    else LastDot(s[..|s| - 1])
  }

  predicate AllDots(s: string) {
    forall i :: 0 <= i < |s| ==> s[i] == '.'
  }

  /**
    `os.path.splitext(name)[0]`: the name up to its last dot, or all of it
    when there is no dot or only dots come before the last one.
  */
  function SplitExtRoot(name: string): string {
    match LastDot(name)
    case None => name
    case Some(i) => if AllDots(name[..i]) then name else name[..i]
  }

  /**
    One half of the name, `HH_MM_SS_mmm`, as a SubRip time: the pieces before
    the last `_` joined with `_` and every `_` turned into `:`, then `,` and
    the last piece.
  */
  function SrtTime(part: string): string {
    var pieces := Split(part, "_");
    ReplaceChar(Join("_", pieces[..|pieces| - 1]), '_', ':') + "," + pieces[|pieces| - 1]
  }

  /**
    The start and end times read from an image name; `None` where the root
    has no `__`, so that `time_parts[1]` raises `IndexError`.
  */
  function ParseImageName(name: string): Option<(string, string)> {
    var timeParts := Split(SplitExtRoot(name), "__");
    if |timeParts| < 2 then None
    else Some((SrtTime(timeParts[0]), SrtTime(timeParts[1])))
  }

  /** A name ending in `.png` after something other than dots has the rest as its root. */
  lemma RootOfPng(stem: string)
    requires !AllDots(stem)
    ensures SplitExtRoot(stem + ".png") == stem
  {
    var name := stem + ".png";
    assert name[|stem|] == '.';
    assert name[|stem| + 1] == 'p' && name[|stem| + 2] == 'n' && name[|stem| + 3] == 'g';
    assert name[..|stem|] == stem;
  }

  /** Replacing `a` by `b` in pieces joined by `a`, when the pieces hold no `a`, joins them by `b`. */
  lemma {:induction false} ReplaceJoin(parts: seq<string>, a: char, b: char)
    requires forall k :: 0 <= k < |parts| ==> !HasChar(parts[k], a)
    ensures ReplaceChar(Join([a], parts), a, b) == Join([b], parts)
    decreases |parts|
  {
    if |parts| == 1 {
      var p := parts[0];
      assert forall i :: 0 <= i < |p| ==> p[i] != a;
      assert ReplaceChar(p, a, b) == p;
    } else if |parts| > 1 {
      ReplaceJoin(parts[1..], a, b);
      var p, rest := parts[0], Join([a], parts[1..]);
      var s := p + [a] + rest;
      var r := ReplaceChar(s, a, b);
      var t := p + [b] + ReplaceChar(rest, a, b);
      assert forall i :: 0 <= i < |p| ==> p[i] != a;
      forall i | 0 <= i < |s| ensures r[i] == t[i] {
        if i < |p| {
          assert s[i] == p[i];
        } else if i > |p| {
          assert s[i] == rest[i - |p| - 1];
        }
      }
      assert r == t;
    }
  }

  /**
    Fields without underscores, joined by `_`: the SubRip time joins all
    but the last by `:` and puts the last after a comma.
  */
  lemma SrtTimeFields(fields: seq<string>)
    requires |fields| >= 1
    requires forall k :: 0 <= k < |fields| ==> !HasChar(fields[k], '_')
    ensures SrtTime(Join("_", fields)) == Join(":", fields[..|fields| - 1]) + "," + fields[|fields| - 1]
  {
    var init := fields[..|fields| - 1];
    FieldsSplit(fields);
    assert ReplaceChar(Join("_", init), '_', ':') == Join(":", init) by {
      ReplaceJoin(init, '_', ':');
    }
  }

  /** Fields without underscores, joined by `_`, split back into the same fields. */
  lemma FieldsSplit(fields: seq<string>)
    requires |fields| >= 1
    requires forall k :: 0 <= k < |fields| ==> !HasChar(fields[k], '_')
    ensures Split(Join("_", fields), "_") == fields
  {
    forall k | 0 <= k < |fields| ensures SepFree(fields[k], "_") {
      SepFreeChar(fields[k], '_');
    }
    SplitJoin(fields, "_");
  }

  /** Non-empty fields without underscores, joined by `_`, never hold `__` and neither begin nor end with `_`. */
  lemma {:induction false} JoinSingles(fields: seq<string>)
    requires |fields| >= 1
    requires forall k :: 0 <= k < |fields| ==> fields[k] != "" && !HasChar(fields[k], '_')
    ensures var j := Join("_", fields);
      && j != [] && j[0] != '_' && j[|j| - 1] != '_'
      && forall i :: 0 <= i < |j| - 1 ==> !(j[i] == '_' && j[i + 1] == '_')
    decreases |fields|
  {
    var f := fields[0];
    assert forall i :: 0 <= i < |f| ==> f[i] != '_';
    if |fields| > 1 {
      JoinSingles(fields[1..]);
      var rest := Join("_", fields[1..]);
      var j := f + "_" + rest;
      assert j == Join("_", fields);
      assert j[0] == f[0];
      assert j[|j| - 1] == rest[|rest| - 1];
      forall i | 0 <= i < |j| - 1 ensures !(j[i] == '_' && j[i + 1] == '_') {
        if i < |f| {
          assert j[i] == f[i];
        } else if i == |f| {
          assert j[i + 1] == rest[0];
        } else {
          assert j[i] == rest[i - |f| - 1] && j[i + 1] == rest[i - |f|];
        }
      }
    }
  }

  /** The pieces of a name made of underscore-free fields never hold `__`. */
  lemma FieldsSepFree(fields: seq<string>)
    requires |fields| >= 1
    requires forall k :: 0 <= k < |fields| ==> fields[k] != "" && !HasChar(fields[k], '_')
    ensures SepFree(Join("_", fields), "__")
  {
    JoinSingles(fields);
    SepFreePair(Join("_", fields), '_');
    assert "__" == ['_', '_'];
  }

  /**
    A name `A_B_.._C__D_E_.._F.png` made of non-empty fields without
    underscores reads back as the times `A:B:..,C` and `D:E:..,F`.
  */
  lemma ParseFieldName(start: seq<string>, end: seq<string>)
    requires |start| >= 1 && |end| >= 1
    requires forall k :: 0 <= k < |start| ==> start[k] != "" && !HasChar(start[k], '_')
    requires forall k :: 0 <= k < |end| ==> end[k] != "" && !HasChar(end[k], '_')
    ensures ParseImageName(Join("_", start) + "__" + Join("_", end) + ".png") ==
      Some((Join(":", start[..|start| - 1]) + "," + start[|start| - 1],
            Join(":", end[..|end| - 1]) + "," + end[|end| - 1]))
  {
    var a, b := Join("_", start), Join("_", end);
    var stem := a + "__" + b;
    assert stem[|a|] == '_';
    RootOfPng(stem);
    assert stem + ".png" == Join("_", start) + "__" + Join("_", end) + ".png";
    FieldsSepFree(start);
    FieldsSepFree(end);
    SplitAfter(a, "__", b);
    SplitWhole(b, "__");
    SrtTimeFields(start);
    SrtTimeFields(end);
  }

  /** The fields of a stamp, `HH`, `MM`, `SS` and `mmm`. */
  function StampFields(c: Clock): (fields: seq<string>)
    ensures |fields| == 4
    ensures forall k :: 0 <= k < 4 ==> fields[k] != "" && !HasChar(fields[k], '_')
  {
    PadIntShape(c.hours, 2);
    PadIntShape(c.minutes, 2);
    PadIntShape(c.seconds, 2);
    PadIntShape(c.millis, 3);
    [PadInt(c.hours, 2), PadInt(c.minutes, 2), PadInt(c.seconds, 2), PadInt(c.millis, 3)]
  }

  /** Three parts joined by a separator, written out. */
  lemma JoinThree(sep: string, a: string, b: string, c: string)
    ensures Join(sep, [a, b, c]) == a + sep + b + sep + c
  {
    assert [b, c][1..] == [c];
    assert Join(sep, [b, c]) == b + sep + c;
    assert [a, b, c][1..] == [b, c];
  }

  /** Four parts joined by a separator, written out. */
  lemma JoinFour(sep: string, a: string, b: string, c: string, d: string)
    ensures Join(sep, [a, b, c, d]) == a + sep + b + sep + c + sep + d
  {
    JoinThree(sep, b, c, d);
    assert [a, b, c, d][1..] == [b, c, d];
  }

  /** A stamp is its fields joined by the separators. */
  lemma StampJoin(c: Clock, sep: char, msSep: char)
    ensures Stamp(c, sep, sep) == Join([sep], StampFields(c))
    ensures Stamp(c, sep, msSep) == Join([sep], StampFields(c)[..3]) + [msSep] + StampFields(c)[3]
  {
    var f := StampFields(c);
    JoinThree([sep], f[0], f[1], f[2]);
    JoinFour([sep], f[0], f[1], f[2], f[3]);
    assert f == [f[0], f[1], f[2], f[3]] && f[..3] == [f[0], f[1], f[2]];
  }

  /**
    The name the extractor gives an interval's image reads back as the two
    SubRip times of the same clocks, for any two clocks.
  */
  lemma ParseStampName(c1: Clock, c2: Clock)
    ensures ParseImageName(Stamp(c1, '_', '_') + "__" + Stamp(c2, '_', '_') + ".png") ==
      Some((Stamp(c1, ':', ','), Stamp(c2, ':', ',')))
  {
    StampJoin(c1, '_', '_');
    StampJoin(c1, ':', ',');
    StampJoin(c2, '_', '_');
    StampJoin(c2, ':', ',');
    ParseFieldName(StampFields(c1), StampFields(c2));
  }

  /**
    Round trip with the extractor: the image saved for frames `start` to
    `end` reads back as `frames_to_time_str` of each with `:` and `,` as
    separators, for every pair of frames and every frame rate.
  */
  lemma ImageNameRoundTrip(start: int, end: int, fps: real)
    ensures ParseImageName(Extractor.ImageName(start, end, fps)) ==
      Some((Stamp(ClockOf(start, fps), ':', ','), Stamp(ClockOf(end, fps), ':', ',')))
  {
    ParseStampName(ClockOf(start, fps), ClockOf(end, fps));
  }

  /** The root of a name holds nothing the name did not. */
  lemma RootAvoids(name: string, bad: char -> bool)
    requires Avoids(name, bad)
    ensures Avoids(SplitExtRoot(name), bad)
  {
    var root := SplitExtRoot(name);
    forall i | 0 <= i < |root| ensures !bad(root[i]) { assert root[i] == name[i]; }
  }

  /** A time read from a name without line breaks has none either. */
  lemma SrtTimeAvoids(part: string)
    requires Avoids(part, IsLineBreak)
    ensures Avoids(SrtTime(part), IsLineBreak)
  {
    var pieces := Split(part, "_");
    SplitAvoids(part, "_", IsLineBreak);
    var init := pieces[..|pieces| - 1];
    JoinAvoids("_", init, IsLineBreak);
    var j := Join("_", init);
    var r := ReplaceChar(j, '_', ':');
    assert Avoids(r, IsLineBreak) by {
      forall i | 0 <= i < |r| ensures !IsLineBreak(r[i]) { assert r[i] == ':' || r[i] == j[i]; }
    }
    AppendAvoids(r, ",", IsLineBreak);
    AppendAvoids(r + ",", pieces[|pieces| - 1], IsLineBreak);
  }

  /** Both times read from a name without line breaks have none. */
  lemma ParseImageNameAvoids(name: string)
    requires Avoids(name, IsLineBreak)
    ensures ParseImageName(name).Some? ==>
      Avoids(ParseImageName(name).value.0, IsLineBreak) && Avoids(ParseImageName(name).value.1, IsLineBreak)
  {
    var root := SplitExtRoot(name);
    RootAvoids(name, IsLineBreak);
    SplitAvoids(root, "__", IsLineBreak);
    var timeParts := Split(root, "__");
    if |timeParts| >= 2 {
      SrtTimeAvoids(timeParts[0]);
      SrtTimeAvoids(timeParts[1]);
    }
  }

  // ---------------------------------------------------------------------
  // srt_blocks: the blocks collected as the images complete
  // ---------------------------------------------------------------------

  /** What `ocr_image_with_google_drive` returns: the cleaned text, or "" when the service gave none. */
  function OcrText(download: Option<string>): string {
    match download
    case None => ""
    case Some(raw) => Cleanup(raw)
  }

  /** The time line `start --> end` and the recognised text of one block. */
  datatype Cue = Cue(timeLine: string, text: string)

  /** The value stored in `srt_blocks`: `f"{start} --> {end}\n{ocr_text}\n"`. */
  function CueValue(cue: Cue): string {
    cue.timeLine + "\n" + cue.text + "\n"
  }

  /**
    The block an image contributes, under its start time: none when its
    text is empty or its name does not read back as two times.
  */
  function Entry(name: string, text: string): (entry: Option<(string, Cue)>)
    ensures entry.None? <==> text == "" || ParseImageName(name).None?
  {
    if text == "" then None
    else match ParseImageName(name)
      case None => None
      case Some((start, end)) => Some((start, Cue(start + " --> " + end, text)))
  }

  /** The block each image contributes, given the service's text for each image. */
  function EntryOf(ocr: string -> Option<string>): string -> Option<(string, Cue)> {
    name => Entry(name, OcrText(ocr(name)))
  }

  /** The image `name` contributes a block under the start time `key`. */
  predicate Keyed(name: string, entryOf: string -> Option<(string, Cue)>, key: string) {
    entryOf(name).Some? && entryOf(name).value.0 == key
  }

  /** The blocks by start time after the images in `done` completed, in that order. */
  function Cues(done: seq<string>, entryOf: string -> Option<(string, Cue)>): map<string, Cue>
    decreases |done|
  {
    if done == [] then map[]
    else
      var cues := Cues(done[..|done| - 1], entryOf);
      match entryOf(done[|done| - 1])
      case None => cues
      case Some((key, cue)) => cues[key := cue]
  }

  /** The dictionary's values for the blocks. */
  function Values(cues: map<string, Cue>): map<string, string> {
    map key | key in cues :: CueValue(cues[key])
  }

  /** `srt_blocks` after the images in `done` completed. */
  function Collected(done: seq<string>, ocr: string -> Option<string>): map<string, string> {
    Values(Cues(done, EntryOf(ocr)))
  }

  /** There is a block for a start time exactly when some completed image contributes one. */
  lemma {:induction false} CuesKeys(done: seq<string>, entryOf: string -> Option<(string, Cue)>, key: string)
    ensures key in Cues(done, entryOf) <==> exists name :: name in done && Keyed(name, entryOf, key)
    decreases |done|
  {
    if done != [] {
      var init, name := done[..|done| - 1], done[|done| - 1];
      CuesKeys(init, entryOf, key);
      assert done == init + [name];
      if key in Cues(done, entryOf) && !Keyed(name, entryOf, key) {
        var other :| other in init && Keyed(other, entryOf, key);
        assert other in done;
      }
    }
  }

  /**
    The later block wins: the block under a start time is the one of the
    last completed image with that start time.
  */
  lemma {:induction false} CuesLastWins(done: seq<string>, entryOf: string -> Option<(string, Cue)>, j: nat, key: string, cue: Cue)
    requires j < |done| && entryOf(done[j]) == Some((key, cue))
    requires forall i :: j < i < |done| ==> !Keyed(done[i], entryOf, key)
    ensures key in Cues(done, entryOf) && Cues(done, entryOf)[key] == cue
    decreases |done|
  {
    var init := done[..|done| - 1];
    if j < |done| - 1 {
      assert !Keyed(done[|done| - 1], entryOf, key);
      CuesLastWins(init, entryOf, j, key, cue);
    }
  }

  /** The order in which the images complete does not change which start times get a block. */
  lemma CompletionOrderKeys(d1: seq<string>, d2: seq<string>, entryOf: string -> Option<(string, Cue)>)
    requires multiset(d1) == multiset(d2)
    ensures Cues(d1, entryOf).Keys == Cues(d2, entryOf).Keys
  {
    forall key ensures key in Cues(d1, entryOf) <==> key in Cues(d2, entryOf) {
      CuesKeys(d1, entryOf, key);
      CuesKeys(d2, entryOf, key);
      assert forall name :: name in d1 <==> name in d2 by {
        forall name ensures name in d1 <==> name in d2 {
          assert name in d1 <==> name in multiset(d1);
          assert name in d2 <==> name in multiset(d2);
        }
      }
    }
  }

  /** One more completed image adds its block, replacing any under the same start time. */
  lemma ValuesStep(done: seq<string>, name: string, entryOf: string -> Option<(string, Cue)>)
    ensures Values(Cues(done + [name], entryOf)) ==
      match entryOf(name)
      case None => Values(Cues(done, entryOf))
      case Some((key, cue)) => Values(Cues(done, entryOf))[key := CueValue(cue)]
  {
    assert (done + [name])[..|done|] == done;
  }

  /** One more completed image adds its block to `srt_blocks`, replacing any under the same start time. */
  lemma CollectedStep(done: seq<string>, name: string, ocr: string -> Option<string>)
    ensures Collected(done + [name], ocr) ==
      match Entry(name, OcrText(ocr(name)))
      case None => Collected(done, ocr)
      case Some((key, cue)) => Collected(done, ocr)[key := CueValue(cue)]
  {
    ValuesStep(done, name, EntryOf(ocr));
    assert EntryOf(ocr)(name) == Entry(name, OcrText(ocr(name)));
  }

  /** The loop over `as_completed`: each finished image's text, when there is one, stored under its start time. */
  method CollectBlocks(completed: seq<string>, ocr: string -> Option<string>) returns (blocks: map<string, string>)
    ensures blocks == Collected(completed, ocr)
  {
    blocks := map[];
    var i := 0;
    while i < |completed|
      invariant 0 <= i <= |completed|
      invariant blocks == Collected(completed[..i], ocr)
    {
      var imgName := completed[i];
      var ocrText := OcrText(ocr(imgName));
      CollectedStep(completed[..i], imgName, ocr);
      TakeOneMore(completed, i);
      if ocrText != "" {
        var timeParts := Split(SplitExtRoot(imgName), "__");
        if |timeParts| >= 2 {
          var startTimeSrt := SrtTime(timeParts[0]);
          var endTimeSrt := SrtTime(timeParts[1]);
          blocks := blocks[startTimeSrt := startTimeSrt + " --> " + endTimeSrt + "\n" + ocrText + "\n"];
        }
      }
      i := i + 1;
    }
    TakeAll(completed);
  }

  // ---------------------------------------------------------------------
  // The SubRip file: sorted start times, numbered blocks
  // ---------------------------------------------------------------------

  /** `m` comes before every other key in code-point order. */
  predicate IsLeast(m: string, keys: set<string>) {
    forall k :: k in keys && k != m ==> LexLess(m, k)
  }

  lemma {:induction false} LeastExists(keys: set<string>)
    requires keys != {}
    ensures exists m :: m in keys && IsLeast(m, keys)
    decreases |keys|
  {
    var x :| x in keys;
    if keys != {x} {
      var rest := keys - {x};
      LeastExists(rest);
      var m :| m in rest && IsLeast(m, rest);
      LexTotal(x, m);
      if LexLess(x, m) {
        forall k | k in keys && k != x ensures LexLess(x, k) {
          if k != m { LexTransitive(x, m, k); }
        }
        assert IsLeast(x, keys);
      } else {
        assert IsLeast(m, keys);
      }
    } else {
      assert IsLeast(x, keys);
    }
  }

  /** `sorted(keys)`: every key once, in strictly increasing code-point order. */
  ghost function SortedKeys(keys: set<string>): (order: seq<string>)
    ensures |order| == |keys|
    ensures forall i :: 0 <= i < |order| ==> order[i] in keys
    ensures forall k :: k in keys ==> k in order
    decreases |keys|
  {
    if keys == {} then []
    else
      LeastExists(keys);
      var m :| m in keys && IsLeast(m, keys);
      [m] + SortedKeys(keys - {m})
  }

  /** The sorted keys are in strictly increasing code-point order, so no key appears twice. */
  lemma {:induction false} SortedKeysIncreasing(keys: set<string>)
    ensures forall i, j :: 0 <= i < j < |SortedKeys(keys)| ==> LexLess(SortedKeys(keys)[i], SortedKeys(keys)[j])
    decreases |keys|
  {
    if keys != {} {
      var order := SortedKeys(keys);
      var m := order[0];
      assert m in keys && IsLeast(m, keys);
      var rest := keys - {m};
      assert order[1..] == SortedKeys(rest);
      SortedKeysIncreasing(rest);
      forall i, j | 0 <= i < j < |order| ensures LexLess(order[i], order[j]) {
        if i == 0 {
          assert order[j] == SortedKeys(rest)[j - 1];
        } else {
          assert order[i] == SortedKeys(rest)[i - 1] && order[j] == SortedKeys(rest)[j - 1];
        }
      }
    }
  }

  /** The least key comes first, and the rest follow in order. */
  lemma SortedKeysFirst(keys: set<string>, m: string)
    requires m in keys && IsLeast(m, keys)
    ensures SortedKeys(keys) == [m] + SortedKeys(keys - {m})
  {
    var order := SortedKeys(keys);
    var first := order[0];
    assert first in keys && IsLeast(first, keys);
    if first != m {
      LexAsymmetric(first, m);
    }
  }

  /** Moving the least remaining key to the end of the order keeps the whole order. */
  lemma SortedStep(order: seq<string>, remaining: set<string>, m: string)
    requires m in remaining && IsLeast(m, remaining)
    ensures (order + [m]) + SortedKeys(remaining - {m}) == order + SortedKeys(remaining)
    ensures |remaining - {m}| < |remaining|
  {
    SortedKeysFirst(remaining, m);
    AppendAssoc(order, [m], SortedKeys(remaining - {m}));
  }

  /** Python's `sorted` on the keys, by repeatedly taking the least key left. */
  method Sorted(keys: set<string>) returns (order: seq<string>)
    ensures order == SortedKeys(keys)
  {
    order := [];
    var remaining := keys;
    while remaining != {}
      invariant order + SortedKeys(remaining) == SortedKeys(keys)
      decreases |remaining|
    {
      LeastExists(remaining);
      var m :| m in remaining && IsLeast(m, remaining);
      SortedStep(order, remaining, m);
      order := order + [m];
      remaining := remaining - {m};
    }
  }

  /** The file text for the keys in `order`: for the i-th, `f"{i + 1}\n"` and the block's value with one more line feed. */
  function Written(order: seq<string>, blocks: map<string, string>): string
    requires forall i :: 0 <= i < |order| ==> order[i] in blocks
    decreases |order|
  {
    if order == [] then ""
    else
      var n := |order|;
      Written(order[..n - 1], blocks) + IntToString(n) + "\n" + (blocks[order[n - 1]] + "\n")
  }

  /** Writing the next key appends its number line and its block with a blank line. */
  lemma WrittenStep(order: seq<string>, i: nat, blocks: map<string, string>)
    requires i < |order| && forall k :: 0 <= k < |order| ==> order[k] in blocks
    ensures Written(order[..i + 1], blocks) == Written(order[..i], blocks) + IntToString(i + 1) + "\n" + (blocks[order[i]] + "\n")
  {
    assert order[..i + 1][..i] == order[..i];
  }

  /**
    The write at the end of `main`: no file when there are no blocks, else
    the blocks in sorted order of their start times, numbered from 1.
  */
  method WriteSrt(blocks: map<string, string>) returns (file: Option<string>)
    ensures file.None? <==> blocks == map[]
    ensures file.Some? ==> file.value == Written(SortedKeys(blocks.Keys), blocks)
  {
    if blocks == map[] {
      return None;
    }
    var sortedTimes := Sorted(blocks.Keys);
    var out := WriteBlocks(sortedTimes, blocks);
    file := Some(out);
  }

  /** The loop of the write: for the i-th key, its number line, then its block and a blank line. */
  method WriteBlocks(order: seq<string>, blocks: map<string, string>) returns (out: string)
    requires forall k :: 0 <= k < |order| ==> order[k] in blocks
    ensures out == Written(order, blocks)
  {
    out := "";
    var i := 0;
    while i < |order|
      invariant 0 <= i <= |order|
      invariant out == Written(order[..i], blocks)
    {
      var timeKey := order[i];
      WrittenStep(order, i, blocks);
      out := out + IntToString(i + 1) + "\n";
      out := out + (blocks[timeKey] + "\n");
      i := i + 1;
    }
    TakeAll(order);
  }


  /** The entries of the written file: number `i + 1`, then the time line and text of the i-th key. */
  function Numbered(order: seq<string>, cues: map<string, Cue>): (subs: seq<Subtitle>)
    requires forall i :: 0 <= i < |order| ==> order[i] in cues
    ensures |subs| == |order|
  {
    seq(|order|, i requires 0 <= i < |order| => Subtitle(IntToString(i + 1), cues[order[i]].timeLine, cues[order[i]].text))
  }

  /** Numbering one more key appends its entry under the next number. */
  lemma NumberedStep(order: seq<string>, cues: map<string, Cue>)
    requires order != [] && forall i :: 0 <= i < |order| ==> order[i] in cues
    ensures var n := |order|; var cue := cues[order[n - 1]];
      Numbered(order, cues) == Numbered(order[..n - 1], cues) + [Subtitle(IntToString(n), cue.timeLine, cue.text)]
  {
  }

  /** A numbered block written from the dictionary is the SubRip block of its entry. */
  lemma BlockOfValue(index: string, cue: Cue)
    ensures index + "\n" + (CueValue(cue) + "\n") == Block(Subtitle(index, cue.timeLine, cue.text))
  {
  }

  /** The written file is the SubRip rendering of the numbered entries. */
  lemma {:induction false} WrittenRender(order: seq<string>, cues: map<string, Cue>)
    requires forall i :: 0 <= i < |order| ==> order[i] in cues
    ensures Written(order, Values(cues)) == Render(Numbered(order, cues))
    decreases |order|
  {
    if order != [] {
      var n := |order|;
      var init := order[..n - 1];
      var cue := cues[order[n - 1]];
      var entry := Subtitle(IntToString(n), cue.timeLine, cue.text);
      WrittenRender(init, cues);
      NumberedStep(order, cues);
      RenderAppend(Numbered(init, cues), [entry]);
      assert Render([entry]) == Block(entry);
      BlockOfValue(IntToString(n), cue);
    }
  }

  /** A block that reads back: an arrow in a one-line time line, and a non-empty stripped one-line text. */
  predicate CleanCue(cue: Cue) {
    Contains(cue.timeLine, "-->") && !HasChar(cue.timeLine, '\n')
    && cue.text != "" && Stripped(cue.text) && !HasChar(cue.text, '\n')
  }

  /** `start --> end` holds an arrow, and no line feed when the times have none. */
  lemma TimeLineClean(start: string, end: string)
    requires !HasChar(start, '\n') && !HasChar(end, '\n')
    ensures Contains(start + " --> " + end, "-->") && !HasChar(start + " --> " + end, '\n')
  {
    var timeLine := start + " --> " + end;
    assert timeLine == (start + " ") + "-->" + (" " + end);
    ContainsMiddle(start + " ", "-->", " " + end);
    forall i | 0 <= i < |timeLine| ensures timeLine[i] != '\n' {
      if i < |start| {
        assert timeLine[i] == start[i];
      } else if i >= |start| + 5 {
        assert timeLine[i] == end[i - |start| - 5];
      }
    }
  }

  /** A non-empty text from the service reads back as a SubRip text. */
  lemma OcrTextClean(download: Option<string>)
    requires OcrText(download) != ""
    ensures Stripped(OcrText(download)) && !HasChar(OcrText(download), '\n')
  {
    CleanupShape(download.value);
    AvoidsNewline(OcrText(download));
  }

  /** The block of an image whose name has no line breaks reads back. */
  lemma EntryClean(name: string, download: Option<string>)
    requires Avoids(name, IsLineBreak)
    ensures var entry := Entry(name, OcrText(download));
      entry.Some? ==> CleanCue(entry.value.1)
  {
    var text := OcrText(download);
    var parsed := ParseImageName(name);
    if text != "" && parsed.Some? {
      OcrTextClean(download);
      ParseImageNameAvoids(name);
      AvoidsNewline(parsed.value.0);
      AvoidsNewline(parsed.value.1);
      TimeLineClean(parsed.value.0, parsed.value.1);
    }
  }

  /** Every block collected from images whose names have no line breaks reads back. */
  lemma {:induction false} CuesClean(done: seq<string>, ocr: string -> Option<string>)
    requires forall j :: 0 <= j < |done| ==> Avoids(done[j], IsLineBreak)
    ensures forall key :: key in Cues(done, EntryOf(ocr)) ==> CleanCue(Cues(done, EntryOf(ocr))[key])
    decreases |done|
  {
    if done != [] {
      var name := done[|done| - 1];
      CuesClean(done[..|done| - 1], ocr);
      EntryClean(name, ocr(name));
    }
  }

  /** Numbering blocks that read back gives entries that read back. */
  lemma NumberedClean(order: seq<string>, cues: map<string, Cue>)
    requires forall i :: 0 <= i < |order| ==> order[i] in cues && CleanCue(cues[order[i]])
    ensures forall i :: 0 <= i < |order| ==> Clean(Numbered(order, cues)[i])
  {
    var subs := Numbered(order, cues);
    forall i | 0 <= i < |subs| ensures Clean(subs[i]) {
      assert subs[i] == Subtitle(IntToString(i + 1), cues[order[i]].timeLine, cues[order[i]].text);
      assert IntToString(i + 1) == NatToString(i + 1);
    }
  }

  /** Blocks that each read back, written in sorted order, read back as the numbered entries. */
  lemma CuesReadBack(cues: map<string, Cue>)
    requires forall key :: key in cues ==> CleanCue(cues[key])
    ensures var order := SortedKeys(cues.Keys);
      Translator.Parsed(Translator.Blocks(Written(order, Values(cues)))) == Numbered(order, cues)
  {
    var order := SortedKeys(cues.Keys);
    WrittenRender(order, cues);
    NumberedClean(order, cues);
    Translator.ParseRender(Numbered(order, cues));
  }

  /**
    Round trip with the translator: reading back the file written from
    the collected blocks gives, in sorted order of start time, entries
    numbered 1, 2, ... with each block's time line and text.
  */
  lemma OcrFileReadsBack(done: seq<string>, ocr: string -> Option<string>)
    requires forall j :: 0 <= j < |done| ==> Avoids(done[j], IsLineBreak)
    ensures var cues := Cues(done, EntryOf(ocr));
      var order := SortedKeys(cues.Keys);
      Translator.Parsed(Translator.Blocks(Written(order, Collected(done, ocr)))) == Numbered(order, cues)
  {
    CuesClean(done, ocr);
    CuesReadBack(Cues(done, EntryOf(ocr)));
  }

  /** Sorting the SubRip start times is sorting by time while the hours have two digits. */
  lemma SortedIsChronological(keys: set<string>, i: nat, j: nat, c1: Clock, c2: Clock)
    requires i < j < |keys|
    requires FixedWidth(c1) && FixedWidth(c2)
    requires SortedKeys(keys)[i] == Stamp(c1, ':', ',') && SortedKeys(keys)[j] == Stamp(c2, ':', ',')
    ensures Millis(c1) < Millis(c2)
  {
    SortedKeysIncreasing(keys);
    StampOrder(c1, c2, ':', ',');
  }

  // ---------------------------------------------------------------------
  // main
  // ---------------------------------------------------------------------

  /** `[f for f in os.listdir(image_folder) if f.endswith('.png')]`, by name. */
  function PngFiles(listing: seq<string>): (images: seq<string>)
    ensures |images| <= |listing|
    ensures forall name :: name in images <==> name in listing && EndsWith(name, ".png")
    decreases |listing|
  {
    if listing == [] then []
    else
      var rest := PngFiles(listing[1..]);
      if EndsWith(listing[0], ".png") then [listing[0]] + rest else rest
  }

  /**
    `main` after authentication: stop when the folder has no `.png` image,
    collect the blocks as the images complete, and write the file when
    there is at least one block. `completed` is the order in which
    `as_completed` hands back the images, each exactly once.
  */
  method ProcessFolder(listing: seq<string>, completed: seq<string>, ocr: string -> Option<string>)
    returns (file: Option<string>)
    requires multiset(completed) == multiset(PngFiles(listing))
    ensures file.None? <==> PngFiles(listing) == [] || Collected(completed, ocr) == map[]
    ensures file.Some? ==> file.value == Written(SortedKeys(Collected(completed, ocr).Keys), Collected(completed, ocr))
  {
    var imageFiles := PngFiles(listing);
    if |imageFiles| == 0 {
      return None;
    }
    var srtBlocks := CollectBlocks(completed, ocr);
    file := WriteSrt(srtBlocks);
  }
}
