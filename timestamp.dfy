/**
  The timestamp field of the image file names: `frames_to_time_str` turns a
  frame index and a frame rate into `HH_MM_SS_mmm`. The same four fields,
  with `:` and `,` as separators, are the SubRip time of the subtitle file.
  Time is computed in exact arithmetic (the source uses floats).
*/
module Timestamp {
  import opened Text
  import opened Numerals

  /** hours, minutes, seconds and milliseconds as the source computes them */
  datatype Clock = Clock(hours: int, minutes: int, seconds: int, millis: int)

  /** Rounding toward zero: `np.modf`'s integral part, and `int()` of a float. */
  function Trunc(x: real): int {
    if x >= 0.0 then x.Floor else -((-x).Floor)
  }

  /** The rate divided by: 25 in place of 0, any other value (negative ones too) as it is. */
  function EffectiveFps(fps: real): real {
    if fps == 0.0 then 25.0 else fps
  }

  /** Seconds from the start of the video to the frame. */
  function Elapsed(frameCount: int, fps: real): real {
    frameCount as real / EffectiveFps(fps)
  }

  /** The time a clock denotes, in milliseconds. */
  function Millis(c: Clock): int {
    c.hours * 3_600_000 + c.minutes * 60_000 + c.seconds * 1000 + c.millis
  }

  /** Minutes and seconds below 60, milliseconds below 1000, nothing negative. */
  predicate InRange(c: Clock) {
    c.hours >= 0 && 0 <= c.minutes < 60 && 0 <= c.seconds < 60 && 0 <= c.millis < 1000
  }

  /** In range and with an hour that fits the two-digit field. */
  predicate FixedWidth(c: Clock) {
    InRange(c) && c.hours < 100
  }

  lemma FloorShift(x: real, n: int)
    ensures (x + n as real).Floor == x.Floor + n
  {
  }

  /** Taking whole seconds and then whole milliseconds of the rest truncates to the millisecond. */
  lemma TruncMillis(x: real)
    ensures 1000 * Trunc(x) + Trunc((x - Trunc(x) as real) * 1000.0) == Trunc(1000.0 * x)
  {
    if x >= 0.0 {
      var w := x.Floor;
      assert (x - w as real) * 1000.0 == 1000.0 * x - (1000 * w) as real;
      FloorShift(1000.0 * x, -(1000 * w));
    } else {
      var w := (-x).Floor;
      assert (x - (-w) as real) * 1000.0 == -(1000.0 * -x - (1000 * w) as real);
      FloorShift(1000.0 * -x, -(1000 * w));
    }
  }

  /**
    `frames_to_time_str` before formatting: whole seconds split by `divmod`
    into hours, minutes and seconds, and the fraction's milliseconds.
  */
  function ClockOf(frameCount: int, fps: real): (c: Clock)
    ensures Millis(c) == Trunc(1000.0 * Elapsed(frameCount, fps))
    ensures frameCount >= 0 && fps > 0.0 ==> InRange(c)
  {
    var seconds := Elapsed(frameCount, fps);
    var whole := Trunc(seconds);
    var ms := Trunc((seconds - whole as real) * 1000.0);
    TruncMillis(seconds);
    Clock(whole / 3600, whole % 3600 / 60, whole % 3600 % 60, ms)
  }

  /** The four fields, zero-padded to 2, 2, 2 and 3 places, with the given separators. */
  function Stamp(c: Clock, sep: char, msSep: char): string {
    PadInt(c.hours, 2) + [sep] + PadInt(c.minutes, 2) + [sep] + PadInt(c.seconds, 2) + [msSep] + PadInt(c.millis, 3)
  }

  /** `frames_to_time_str(frame_count, fps)` */
  function FramesToTimeStr(frameCount: int, fps: real): string {
    Stamp(ClockOf(frameCount, fps), '_', '_')
  }

  /** The fixed layout `dd?dd?dd?ddd`, with `sep` at 2 and 5 and `msSep` at 8. */
  predicate StampLayout(s: string, sep: char, msSep: char) {
    && |s| == 12
    && s[2] == sep && s[5] == sep && s[8] == msSep
    && forall i :: 0 <= i < 12 && i != 2 && i != 5 && i != 8 ==> IsDigit(s[i])
  }

  /** A stamp in fixed width spelled out character by character. */
  lemma StampChars(c: Clock, sep: char, msSep: char)
    requires FixedWidth(c)
    ensures Stamp(c, sep, msSep) == [DigitChar(c.hours / 10), DigitChar(c.hours % 10), sep,
                                      DigitChar(c.minutes / 10), DigitChar(c.minutes % 10), sep,
                                      DigitChar(c.seconds / 10), DigitChar(c.seconds % 10), msSep,
                                      DigitChar(c.millis / 100), DigitChar(c.millis / 10 % 10), DigitChar(c.millis % 10)]
  {
    Pad2(c.hours);
    Pad2(c.minutes);
    Pad2(c.seconds);
    Pad3(c.millis);
  }

  /** Nine digits around the separators make the fixed layout. */
  lemma DigitsLayout(h1: char, h0: char, m1: char, m0: char, s1: char, s0: char, x2: char, x1: char, x0: char, sep: char, msSep: char)
    requires IsDigit(h1) && IsDigit(h0) && IsDigit(m1) && IsDigit(m0) && IsDigit(s1) && IsDigit(s0)
    requires IsDigit(x2) && IsDigit(x1) && IsDigit(x0)
    ensures StampLayout([h1, h0, sep, m1, m0, sep, s1, s0, msSep, x2, x1, x0], sep, msSep)
  {
    var s := [h1, h0, sep, m1, m0, sep, s1, s0, msSep, x2, x1, x0];
    forall i | 0 <= i < 12 && i != 2 && i != 5 && i != 8 ensures IsDigit(s[i]) {
    }
  }

  /** A fixed-width stamp has the fixed layout. */
  lemma StampCharsLayout(c: Clock, sep: char, msSep: char)
    requires FixedWidth(c)
    ensures StampLayout(Stamp(c, sep, msSep), sep, msSep)
  {
    StampChars(c, sep, msSep);
    DigitsLayout(DigitChar(c.hours / 10), DigitChar(c.hours % 10), DigitChar(c.minutes / 10), DigitChar(c.minutes % 10),
                 DigitChar(c.seconds / 10), DigitChar(c.seconds % 10),
                 DigitChar(c.millis / 100), DigitChar(c.millis / 10 % 10), DigitChar(c.millis % 10), sep, msSep);
  }

  /** Under 100 hours in, the hour field has at most two digits. */
  lemma HoursBelow100(frameCount: int, fps: real)
    requires frameCount >= 0 && fps > 0.0
    requires Elapsed(frameCount, fps) < 360000.0
    ensures FixedWidth(ClockOf(frameCount, fps))
  {
    var c := ClockOf(frameCount, fps);
    assert 1000.0 * Elapsed(frameCount, fps) < 360000000.0;
    assert Millis(c) < 360_000_000;
  }

  /** A non-negative frame at a positive rate, under 100 hours in, gives the fixed layout. */
  lemma FramesToTimeStrLayout(frameCount: int, fps: real)
    requires frameCount >= 0 && fps > 0.0
    requires Elapsed(frameCount, fps) < 360000.0
    ensures StampLayout(FramesToTimeStr(frameCount, fps), '_', '_')
  {
    HoursBelow100(frameCount, fps);
    StampCharsLayout(ClockOf(frameCount, fps), '_', '_');
  }

  /** A frame rate of 0 is read as 25. */
  lemma ZeroFpsIsTwentyFive(frameCount: int)
    ensures FramesToTimeStr(frameCount, 0.0) == FramesToTimeStr(frameCount, 25.0)
    ensures Millis(ClockOf(frameCount, 0.0)) == Trunc(frameCount as real * 40.0)
  {
    assert Elapsed(frameCount, 0.0) == Elapsed(frameCount, 25.0);
    assert ClockOf(frameCount, 0.0) == ClockOf(frameCount, 25.0);
    assert 1000.0 * Elapsed(frameCount, 25.0) == frameCount as real * 40.0;
  }

  /** At a fixed positive rate, later frames never get an earlier time. */
  lemma ClockMonotonic(f1: int, f2: int, fps: real)
    requires 0 <= f1 <= f2 && fps > 0.0
    ensures Millis(ClockOf(f1, fps)) <= Millis(ClockOf(f2, fps))
  {
    var e1 := Elapsed(f1, fps);
    var e2 := Elapsed(f2, fps);
    assert e2 - e1 == (f2 - f1) as real / fps;
    assert e1 <= e2;
    assert 1000.0 * e1 <= 1000.0 * e2;
  }

  /** Two-digit fields compare as strings the way their numbers compare. */
  lemma LexPad2(a: int, b: int)
    requires 0 <= a < 100 && 0 <= b < 100
    ensures LexLess(PadInt(a, 2), PadInt(b, 2)) <==> a < b
    ensures PadInt(a, 2) == PadInt(b, 2) <==> a == b
  {
    Pad2(a);
    Pad2(b);
    var a1, a0 := a / 10, a % 10;
    var b1, b0 := b / 10, b % 10;
    LexCons(DigitChar(a0), DigitChar(b0), [], []);
    LexCons(DigitChar(a1), DigitChar(b1), [DigitChar(a0)], [DigitChar(b0)]);
    DigitCharOrder(a0, b0);
    DigitCharOrder(a1, b1);
    assert a == 10 * a1 + a0 && b == 10 * b1 + b0;
  }

  /** Three digit characters compare as strings the way the three-digit numbers compare. */
  lemma LexDigits3(a2: nat, a1: nat, a0: nat, b2: nat, b1: nat, b0: nat)
    requires a2 < 10 && a1 < 10 && a0 < 10 && b2 < 10 && b1 < 10 && b0 < 10
    ensures LexLess([DigitChar(a2), DigitChar(a1), DigitChar(a0)], [DigitChar(b2), DigitChar(b1), DigitChar(b0)])
      <==> 100 * a2 + 10 * a1 + a0 < 100 * b2 + 10 * b1 + b0
    ensures [DigitChar(a2), DigitChar(a1), DigitChar(a0)] == [DigitChar(b2), DigitChar(b1), DigitChar(b0)]
      <==> 100 * a2 + 10 * a1 + a0 == 100 * b2 + 10 * b1 + b0
  {
    var t1, t2 := [DigitChar(a1), DigitChar(a0)], [DigitChar(b1), DigitChar(b0)];
    LexCons(DigitChar(a0), DigitChar(b0), [], []);
    LexCons(DigitChar(a1), DigitChar(b1), [DigitChar(a0)], [DigitChar(b0)]);
    LexCons(DigitChar(a2), DigitChar(b2), t1, t2);
    DigitCharOrder(a0, b0);
    DigitCharOrder(a1, b1);
    DigitCharOrder(a2, b2);
    assert t1 == [DigitChar(a1)] + [DigitChar(a0)] && t2 == [DigitChar(b1)] + [DigitChar(b0)];
    assert [DigitChar(a2), DigitChar(a1), DigitChar(a0)] == [DigitChar(a2)] + t1;
    assert [DigitChar(b2), DigitChar(b1), DigitChar(b0)] == [DigitChar(b2)] + t2;
  }

  /** The three decimal digits of a number below 1000. */
  lemma Decimal3(a: int)
    requires 0 <= a < 1000
    ensures a / 100 < 10 && a == 100 * (a / 100) + 10 * (a / 10 % 10) + a % 10
  {
  }

  /** Three-digit fields compare as strings the way their numbers compare. */
  lemma LexPad3(a: int, b: int)
    requires 0 <= a < 1000 && 0 <= b < 1000
    ensures LexLess(PadInt(a, 3), PadInt(b, 3)) <==> a < b
    ensures PadInt(a, 3) == PadInt(b, 3) <==> a == b
  {
    Pad3(a);
    Pad3(b);
    Decimal3(a);
    Decimal3(b);
    LexDigits3(a / 100, a / 10 % 10, a % 10, b / 100, b / 10 % 10, b % 10);
  }

  /** A two-digit field, a separator and a rest compare field first, then rest. */
  lemma LexField(a: int, b: int, sep: char, r1: string, r2: string)
    requires 0 <= a < 100 && 0 <= b < 100
    ensures LexLess(PadInt(a, 2) + ([sep] + r1), PadInt(b, 2) + ([sep] + r2)) <==> a < b || (a == b && LexLess(r1, r2))
    ensures PadInt(a, 2) + ([sep] + r1) == PadInt(b, 2) + ([sep] + r2) <==> a == b && r1 == r2
  {
    Pad2(a);
    Pad2(b);
    LexPad2(a, b);
    LexAppend(PadInt(a, 2), [sep] + r1, PadInt(b, 2), [sep] + r2);
    LexCons(sep, sep, r1, r2);
    var p, q := PadInt(a, 2) + ([sep] + r1), PadInt(b, 2) + ([sep] + r2);
    if p == q {
      assert p[..2] == PadInt(a, 2) && q[..2] == PadInt(b, 2);
      assert p[3..] == r1 && q[3..] == r2;
    }
  }

  /** Mixed-radix comparison: field by field is comparing milliseconds. */
  lemma MillisOrder(c1: Clock, c2: Clock)
    requires InRange(c1) && InRange(c2)
    ensures Millis(c1) < Millis(c2) <==>
      c1.hours < c2.hours || (c1.hours == c2.hours &&
      (c1.minutes < c2.minutes || (c1.minutes == c2.minutes &&
      (c1.seconds < c2.seconds || (c1.seconds == c2.seconds && c1.millis < c2.millis)))))
    ensures Millis(c1) == Millis(c2) <==> c1 == c2
  {
  }

  /** Seven strings concatenated from the left are the same concatenated from the right. */
  lemma RightNested(a: string, b: string, c: string, d: string, e: string, f: string, g: string)
    ensures a + b + c + d + e + f + g == a + (b + (c + (d + (e + (f + g)))))
  {
    AppendAssoc(a + b + c + d + e, f, g);
    AppendAssoc(a + b + c + d, e, f + g);
    AppendAssoc(a + b + c, d, e + (f + g));
    AppendAssoc(a + b, c, d + (e + (f + g)));
    AppendAssoc(a, b, c + (d + (e + (f + g))));
  }

  /** The stamp grouped field by field from the right. */
  lemma StampNested(c: Clock, sep: char, msSep: char)
    ensures Stamp(c, sep, msSep) == PadInt(c.hours, 2) + ([sep] + (PadInt(c.minutes, 2) + ([sep] + (PadInt(c.seconds, 2) + ([msSep] + PadInt(c.millis, 3))))))
  {
    RightNested(PadInt(c.hours, 2), [sep], PadInt(c.minutes, 2), [sep], PadInt(c.seconds, 2), [msSep], PadInt(c.millis, 3));
  }

  /**
    In fixed width, comparing two stamps as strings (the order `sorted`
    uses) is comparing the times they denote.
  */
  lemma StampOrder(c1: Clock, c2: Clock, sep: char, msSep: char)
    requires FixedWidth(c1) && FixedWidth(c2)
    ensures LexLess(Stamp(c1, sep, msSep), Stamp(c2, sep, msSep)) <==> Millis(c1) < Millis(c2)
    ensures Stamp(c1, sep, msSep) == Stamp(c2, sep, msSep) <==> c1 == c2
  {
    var f1, f2 := PadInt(c1.millis, 3), PadInt(c2.millis, 3);
    var r1, r2 := PadInt(c1.seconds, 2) + ([msSep] + f1), PadInt(c2.seconds, 2) + ([msSep] + f2);
    var q1, q2 := PadInt(c1.minutes, 2) + ([sep] + r1), PadInt(c2.minutes, 2) + ([sep] + r2);
    var p1, p2 := PadInt(c1.hours, 2) + ([sep] + q1), PadInt(c2.hours, 2) + ([sep] + q2);
    LexPad3(c1.millis, c2.millis);
    LexField(c1.seconds, c2.seconds, msSep, f1, f2);
    LexField(c1.minutes, c2.minutes, sep, r1, r2);
    LexField(c1.hours, c2.hours, sep, q1, q2);
    StampNested(c1, sep, msSep);
    StampNested(c2, sep, msSep);
    MillisOrder(c1, c2);
  }

  /** At a fixed positive rate, the names' time fields never sort a later frame first. */
  lemma FramesToTimeStrSorted(f1: int, f2: int, fps: real)
    requires 0 <= f1 <= f2 && fps > 0.0
    requires Elapsed(f2, fps) < 360000.0
    ensures !LexLess(FramesToTimeStr(f2, fps), FramesToTimeStr(f1, fps))
  {
    var c1, c2 := ClockOf(f1, fps), ClockOf(f2, fps);
    ClockMonotonic(f1, f2, fps);
    HoursBelow100(f2, fps);
    assert c1.hours < 100;
    StampOrder(c2, c1, '_', '_');
  }
}
