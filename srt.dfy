/**
  The SubRip layout both ends of the pipeline share: blocks of an index
  line, a time line and the text, each block followed by a blank line.
*/
module Srt {
  import opened Text
  import opened Numerals

  /** One subtitle entry: `{'index': ..., 'time': ..., 'text': ...}`. */
  datatype Subtitle = Subtitle(index: string, time: string, text: string)

  /** A block without its trailing blank line: the three lines joined by line feeds. */
  function Body(s: Subtitle): string {
    s.index + "\n" + s.time + "\n" + s.text
  }

  /** `f"{index}\n"`, `f"{time}\n"` and `f"{text}\n\n"`, one after the other. */
  function Block(s: Subtitle): string {
    Body(s) + "\n\n"
  }

  /** A file of blocks, in order. */
  function Render(subs: seq<Subtitle>): string
    decreases |subs|
  {
    if subs == [] then "" else Block(subs[0]) + Render(subs[1..])
  }

  function Bodies(subs: seq<Subtitle>): (bodies: seq<string>)
    ensures |bodies| == |subs|
    ensures forall k :: 0 <= k < |subs| ==> bodies[k] == Body(subs[k])
  {
    seq(|subs|, k requires 0 <= k < |subs| => Body(subs[k]))
  }

  /**
    An entry that reads back unchanged: an all-digit index, a time line with
    an arrow, and a non-empty stripped text, none of them spanning lines.
  */
  predicate Clean(s: Subtitle) {
    && AllDigits(s.index)
    && Contains(s.time, "-->") && !HasChar(s.time, '\n')
    && s.text != "" && Stripped(s.text) && !HasChar(s.text, '\n')
  }

  /** A file of blocks is its bodies joined by blank lines, then one more blank line. */
  lemma {:induction false} RenderJoin(subs: seq<Subtitle>)
    requires subs != []
    ensures Render(subs) == Join("\n\n", Bodies(subs)) + "\n\n"
    decreases |subs|
  {
    if |subs| > 1 {
      var rest := subs[1..];
      RenderJoin(rest);
      assert Bodies(subs) == [Body(subs[0])] + Bodies(rest);
      JoinCons(Body(subs[0]), "\n\n", Bodies(rest));
    } else {
      assert Bodies(subs) == [Body(subs[0])];
    }
  }

  /** Rendering distributes over concatenation. */
  lemma {:induction false} RenderAppend(a: seq<Subtitle>, b: seq<Subtitle>)
    ensures Render(a + b) == Render(a) + Render(b)
    decreases |a|
  {
    if a == [] {
      assert a + b == b;
    } else {
      assert (a + b)[1..] == a[1..] + b;
      RenderAppend(a[1..], b);
    }
  }
}
