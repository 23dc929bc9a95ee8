/**
  The translation step: reading a SubRip file into entries, building the
  request for each text, writing the translated file with the same indices
  and time lines, and the progress bar's fill.

  The translation service (the HTTP request with its retries and the
  reading of the reply) is a parameter from prompt to translated text.
*/
module Translator {
  import opened Wrappers
  import opened Text
  import opened Numerals
  import opened Srt

  // ---------------------------------------------------------------------
  // parse_srt
  // ---------------------------------------------------------------------

  /** An entry `parse_srt` keeps: an all-digit index, an arrow in the time line, stripped text. */
  predicate Valid(s: Subtitle) {
    AllDigits(s.index) && Contains(s.time, "-->") && Stripped(s.text)
  }

  /** One block: blank ones, short ones and malformed ones give no entry. */
  function ParseBlock(block: string): Option<Subtitle> {
    if Strip(block) == "" then None
    else
      var lines := Split(block, "\n");
      if |lines| >= 3 && Contains(lines[1], "-->") && AllDigits(lines[0]) then
        Some(Subtitle(lines[0], lines[1], Strip(Join("\n", lines[2..]))))
      else None
  }

  /** `content.strip().split('\n\n')` */
  function Blocks(content: string): seq<string> {
    Split(Strip(content), "\n\n")
  }

  /** The entries of the blocks that parse, in the blocks' order. */
  function Parsed(blocks: seq<string>): seq<Subtitle>
    decreases |blocks|
  {
    if blocks == [] then []
    else
      var init := Parsed(blocks[..|blocks| - 1]);
      match ParseBlock(blocks[|blocks| - 1])
      case None => init
      case Some(entry) => init + [entry]
  }

  lemma ParseBlockValid(block: string)
    ensures ParseBlock(block).Some? ==> Valid(ParseBlock(block).value)
  {
  }

  /** Every entry kept is valid, and there are no more entries than blocks. */
  lemma {:induction false} ParsedValid(blocks: seq<string>)
    ensures |Parsed(blocks)| <= |blocks|
    ensures forall k :: 0 <= k < |Parsed(blocks)| ==> Valid(Parsed(blocks)[k])
    decreases |blocks|
  {
    if blocks != [] {
      ParsedValid(blocks[..|blocks| - 1]);
      ParseBlockValid(blocks[|blocks| - 1]);
    }
  }

  /** Reading one more block adds its entry, if it has one, after the others. */
  lemma ParsedStep(blocks: seq<string>, i: nat, entry: Option<Subtitle>)
    requires i < |blocks| && entry == ParseBlock(blocks[i])
    ensures Parsed(blocks[..i + 1]) == if entry.Some? then Parsed(blocks[..i]) + [entry.value] else Parsed(blocks[..i])
  {
    assert blocks[..i + 1][..i] == blocks[..i];
  }


  /** A block that parses adds its entry at the end. */
  lemma ParsedAppend(blocks: seq<string>, block: string, entry: Subtitle)
    requires ParseBlock(block) == Some(entry)
    ensures Parsed(blocks + [block]) == Parsed(blocks) + [entry]
  {
    FrontOfAppend(blocks, block);
  }

  /** The body of the loop of `parse_srt` for one block: the entry it appends, if any. */
  method ReadBlock(blockText: string) returns (entry: Option<Subtitle>)
    ensures entry == ParseBlock(blockText)
  {
    entry := None;
    if Strip(blockText) != "" {
      var lines := Split(blockText, "\n");
      if |lines| >= 3 {
        var index := lines[0];
        var timeLine := lines[1];
        var text := Join("\n", lines[2..]);
        if Contains(timeLine, "-->") && AllDigits(index) {
          entry := Some(Subtitle(index, timeLine, Strip(text)));
        }
      }
    }
  }

  /** `parse_srt`: `content` is the file's text, `None` when it cannot be read. */
  method ParseSrt(content: Option<string>) returns (subtitles: seq<Subtitle>)
    ensures subtitles == if content.None? then [] else Parsed(Blocks(content.value))
  {
    subtitles := [];
    if content.None? {
      return;
    }
    var blocks := Blocks(content.value);
    var i := 0;
    while i < |blocks|
      invariant 0 <= i <= |blocks|
      invariant subtitles == Parsed(blocks[..i])
    {
      var entry := ReadBlock(blocks[i]);
      ParsedStep(blocks, i, entry);
      if entry.Some? {
        subtitles := subtitles + [entry.value];
      }
      i := i + 1;
    }
    TakeAll(blocks);
  }


  /** A clean entry's body has no blank line in it and does not end with a line feed. */
  lemma BodySepFree(s: Subtitle)
    requires Clean(s)
    ensures SepFree(Body(s), "\n\n")
  {
    var b := Body(s);
    var n1 := |s.index|;
    var n2 := n1 + 1 + |s.time|;
    assert !HasChar(s.index, '\n') by {
      forall i | 0 <= i < |s.index| ensures s.index[i] != '\n' {
        assert IsDigit(s.index[i]);
      }
    }
    assert s.time != "";
    forall i | 0 <= i < |b| ensures b[i] == '\n' <==> i == n1 || i == n2 {
      if i < n1 {
        assert b[i] == s.index[i];
      } else if n1 < i < n2 {
        assert b[i] == s.time[i - n1 - 1];
      } else if n2 < i {
        assert b[i] == s.text[i - n2 - 1];
      }
    }
    assert b[|b| - 1] == s.text[|s.text| - 1];
    SepFreePair(b, '\n');
    assert "\n\n" == ['\n', '\n'];
  }

  /** A clean entry's body is stripped and splits into its three lines. */
  lemma BodyLines(s: Subtitle)
    requires Clean(s)
    ensures Stripped(Body(s))
    ensures Split(Body(s), "\n") == [s.index, s.time, s.text]
  {
    var b := Body(s);
    assert !HasChar(s.index, '\n') by {
      forall i | 0 <= i < |s.index| ensures s.index[i] != '\n' {
        assert IsDigit(s.index[i]);
      }
    }
    assert b[0] == s.index[0];
    assert b[|b| - 1] == s.text[|s.text| - 1];
    SepFreeChar(s.index, '\n');
    SepFreeChar(s.time, '\n');
    SepFreeChar(s.text, '\n');
    assert b == s.index + "\n" + (s.time + "\n" + s.text);
    SplitAfter(s.index, "\n", s.time + "\n" + s.text);
    SplitAfter(s.time, "\n", s.text);
    SplitWhole(s.text, "\n");
  }

  /** A block of exactly three lines around a well-formed index and time line parses to them. */
  lemma ParseThreeLines(block: string, index: string, time: string, text: string)
    requires Strip(block) != ""
    requires Split(block, "\n") == [index, time, text]
    requires AllDigits(index) && Contains(time, "-->")
    ensures ParseBlock(block) == Some(Subtitle(index, time, Strip(text)))
  {
    var lines := Split(block, "\n");
    assert lines[2..] == [text];
  }

  /** A clean entry's body is not blank. */
  lemma BodyNotBlank(s: Subtitle)
    requires Clean(s)
    ensures Strip(Body(s)) != ""
  {
    BodyLines(s);
    StripStripped(Body(s));
  }

  /** A clean entry's block body parses back to the entry. */
  lemma ParseBody(s: Subtitle)
    requires Clean(s)
    ensures ParseBlock(Body(s)) == Some(s)
  {
    BodyNotBlank(s);
    BodyLines(s);
    StripStripped(s.text);
    ParseThreeLines(Body(s), s.index, s.time, s.text);
  }

  lemma BodiesSnoc(subs: seq<Subtitle>)
    requires subs != []
    ensures Bodies(subs) == Bodies(subs[..|subs| - 1]) + [Body(subs[|subs| - 1])]
  {
  }

  /** Parsing the bodies of clean entries one by one gives the entries back. */
  lemma {:induction false} ParseBodies(subs: seq<Subtitle>)
    requires forall k :: 0 <= k < |subs| ==> Clean(subs[k])
    ensures Parsed(Bodies(subs)) == subs
    decreases |subs|
  {
    if subs != [] {
      var n := |subs| - 1;
      ParseBodies(subs[..n]);
      ParseBody(subs[n]);
      BodiesSnoc(subs);
      ParsedAppend(Bodies(subs[..n]), Body(subs[n]), subs[n]);
      LastSplit(subs);
    }
  }

  /** The bodies of clean entries, joined by blank lines, begin and end with a visible character. */
  lemma JoinedBodiesStripped(subs: seq<Subtitle>)
    requires subs != [] && forall k :: 0 <= k < |subs| ==> Clean(subs[k])
    ensures Join("\n\n", Bodies(subs)) != [] && Stripped(Join("\n\n", Bodies(subs)))
  {
    var bodies := Bodies(subs);
    BodyLines(subs[0]);
    BodyLines(subs[|subs| - 1]);
    JoinStripped("\n\n", bodies);
  }

  /** Stripping a stripped text followed by a blank line gives the text. */
  lemma StripBlankLine(j: string)
    requires j != [] && Stripped(j)
    ensures Strip(j + "\n\n") == j
  {
    var w := "\n\n";
    assert IsSpace(w[0]) && IsSpace(w[1]);
    StripTrailing(j, w);
  }

  /** Stripping a file of clean blocks removes only the final blank line. */
  lemma RenderStrip(subs: seq<Subtitle>)
    requires subs != [] && forall k :: 0 <= k < |subs| ==> Clean(subs[k])
    ensures Strip(Render(subs)) == Join("\n\n", Bodies(subs))
  {
    RenderJoin(subs);
    JoinedBodiesStripped(subs);
    StripBlankLine(Join("\n\n", Bodies(subs)));
  }

  /** A file of clean blocks falls apart into the blocks' bodies. */
  lemma BlocksRender(subs: seq<Subtitle>)
    requires subs != [] && forall k :: 0 <= k < |subs| ==> Clean(subs[k])
    ensures Blocks(Render(subs)) == Bodies(subs)
  {
    var bodies := Bodies(subs);
    RenderStrip(subs);
    forall k | 0 <= k < |bodies| ensures SepFree(bodies[k], "\n\n") {
      BodySepFree(subs[k]);
    }
    SplitJoin(bodies, "\n\n");
  }

  /**
    Reading a file of clean blocks gives back its entries, one per block and
    in order: the round trip between the SubRip writer and `parse_srt`.
  */
  lemma ParseRender(subs: seq<Subtitle>)
    requires forall k :: 0 <= k < |subs| ==> Clean(subs[k])
    ensures Parsed(Blocks(Render(subs))) == subs
  {
    if subs == [] {
      assert Strip("") == "";
      assert Split("", "\n\n") == [""];
      assert Parsed([""]) == Parsed([]);
    } else {
      BlocksRender(subs);
      ParseBodies(subs);
    }
  }

  // ---------------------------------------------------------------------
  // translate_text_with_gemini: the guard and the prompt
  // ---------------------------------------------------------------------

  /** `if context:` — a context given and not empty. */
  predicate HasContext(context: Option<string>) {
    context.Some? && context.value != ""
  }

  const ContextHeader: string := "**Context for translation:**\n"

  const ContextTask: string := "**Task:**\nTranslate the following text to Vietnamese, keeping the original meaning and tone. Adhere to the context provided above. Do not add any extra explanations or notes, just provide the translation.\n\n**Original Text:**\n"

  const PlainTask: string := "Translate the following text to " + "Vietnamese, keeping the original meaning and tone. "
    + "Do not add any extra explanations or notes, just provide the translation:\n\n"

  /** The prompt sent for `text`: with a context section first when there is a context. */
  function Prompt(text: string, context: Option<string>): (prompt: string)
    ensures EndsWith(prompt, text)
    ensures HasContext(context) ==> StartsWith(prompt, ContextHeader + context.value + "\n\n" + ContextTask)
    ensures !HasContext(context) ==> StartsWith(prompt, PlainTask)
  {
    if HasContext(context) then
      var head := ContextHeader + context.value + "\n\n" + ContextTask;
      var p := head + text;
      assert p[..|head|] == head;
      assert p[|p| - |text|..] == text;
      p
    else
      var p := PlainTask + text;
      assert p[..|PlainTask|] == PlainTask;
      assert p[|p| - |text|..] == text;
      p
  }

  /** The prompt opens with the context header exactly when there is a context. */
  lemma PromptMarksContext(text: string, context: Option<string>)
    ensures StartsWith(Prompt(text, context), ContextHeader) <==> HasContext(context)
  {
    var prompt := Prompt(text, context);
    if HasContext(context) {
      var head := ContextHeader + context.value + "\n\n" + ContextTask;
      assert prompt[..|ContextHeader|] == head[..|ContextHeader|] == ContextHeader;
    } else {
      assert prompt[0] == PlainTask[0] == 'T' != ContextHeader[0];
    }
  }

  /** The request made for a text: none for an empty text, else the prompt. */
  function Request(text: string, context: Option<string>): (request: Option<string>)
    ensures request.None? <==> text == ""
    ensures request.Some? ==> request.value == Prompt(text, context)
  {
    if text == "" then None else Some(Prompt(text, context))
  }

  /** `translate_text_with_gemini`, with the service's answer to a prompt given by `gemini`. */
  function TranslateText(text: string, context: Option<string>, gemini: string -> string): (translated: string)
    ensures text == "" ==> translated == ""
  {
    match Request(text, context)
    case None => ""
    case Some(prompt) => gemini(prompt)
  }

  // ---------------------------------------------------------------------
  // main: the output file
  // ---------------------------------------------------------------------

  /** The translation applied to each text: `translate_text_with_gemini` with a fixed context. */
  function Translation(context: Option<string>, gemini: string -> string): string -> string {
    text => TranslateText(text, context, gemini)
  }

  /** Every entry with its text translated, index and time line unchanged. */
  function Translated(subs: seq<Subtitle>, translate: string -> string): (out: seq<Subtitle>)
    ensures |out| == |subs|
    ensures forall k :: 0 <= k < |subs| ==>
      out[k].index == subs[k].index && out[k].time == subs[k].time && out[k].text == translate(subs[k].text)
  {
    seq(|subs|, k requires 0 <= k < |subs| => Subtitle(subs[k].index, subs[k].time, translate(subs[k].text)))
  }

  /** Translating one more entry appends its translation. */
  lemma TranslatedStep(subs: seq<Subtitle>, i: nat, translate: string -> string)
    requires i < |subs|
    ensures Translated(subs[..i + 1], translate) ==
      Translated(subs[..i], translate) + [Subtitle(subs[i].index, subs[i].time, translate(subs[i].text))]
  {
  }

  /** Writing one more entry appends its index line, time line, text and blank line. */
  lemma RenderStep(done: seq<Subtitle>, entry: Subtitle)
    ensures Render(done + [entry]) == Render(done) + entry.index + "\n" + entry.time + "\n" + entry.text + "\n\n"
  {
    RenderAppend(done, [entry]);
    assert Render([entry]) == Block(entry);
  }

  /** Writing one more translated entry appends its block to the output. */
  lemma RenderTranslatedStep(subs: seq<Subtitle>, i: nat, translate: string -> string)
    requires i < |subs|
    ensures Render(Translated(subs[..i + 1], translate)) ==
      Render(Translated(subs[..i], translate)) + subs[i].index + "\n" + subs[i].time + "\n" + translate(subs[i].text) + "\n\n"
  {
    TranslatedStep(subs, i, translate);
    RenderStep(Translated(subs[..i], translate), Subtitle(subs[i].index, subs[i].time, translate(subs[i].text)));
  }

  /**
    `main`: parse the input, stop when it has no entries, else write one
    block per entry in order. `None` is "no output file written".
  */
  method TranslateFile(content: Option<string>, context: Option<string>, gemini: string -> string)
    returns (output: Option<string>)
    ensures var subs := if content.None? then [] else Parsed(Blocks(content.value));
      output == if subs == [] then None else Some(Render(Translated(subs, Translation(context, gemini))))
  {
    var subtitles := ParseSrt(content);
    if |subtitles| == 0 {
      return None;
    }
    var translate := Translation(context, gemini);
    var out := "";
    var i := 0;
    while i < |subtitles|
      invariant 0 <= i <= |subtitles|
      invariant out == Render(Translated(subtitles[..i], translate))
    {
      var sub := subtitles[i];
      var translatedText := translate(sub.text);
      RenderTranslatedStep(subtitles, i, translate);
      out := out + sub.index + "\n";
      out := out + sub.time + "\n";
      out := out + translatedText + "\n\n";
      i := i + 1;
    }
    TakeAll(subtitles);
    output := Some(out);
  }

  /**
    When every translation is a non-empty stripped single line, reading the
    output file back gives each input entry's index and time line with its
    translation, in order.
  */
  lemma TranslationReadsBack(subs: seq<Subtitle>, translate: string -> string)
    requires forall k :: 0 <= k < |subs| ==> Valid(subs[k]) && !HasChar(subs[k].time, '\n')
    requires forall k :: 0 <= k < |subs| ==>
      var t := translate(subs[k].text);
      t != "" && Stripped(t) && !HasChar(t, '\n')
    ensures var back := Parsed(Blocks(Render(Translated(subs, translate))));
      && |back| == |subs|
      && forall k :: 0 <= k < |subs| ==>
           back[k] == Subtitle(subs[k].index, subs[k].time, translate(subs[k].text))
  {
    ParseRender(Translated(subs, translate));
  }

  // ---------------------------------------------------------------------
  // draw_progress_bar
  // ---------------------------------------------------------------------

  /** Python's `a // b`: the quotient rounded down, for either sign of `b`. */
  function FloorDiv(a: int, b: int): (q: int)
    requires b != 0
    ensures b > 0 ==> q * b <= a < q * b + b
    ensures b < 0 ==> q * b >= a > q * b + b
  {
    if b > 0 then a / b else (-a) / (-b)
  }

  /** `c * n` for a one-character string: `n` copies, none when `n` is not positive. */
  function Repeat(c: char, n: int): (r: string)
    ensures |r| == if n <= 0 then 0 else n
    ensures forall i :: 0 <= i < |r| ==> r[i] == c
    decreases n
  {
    if n <= 0 then "" else [c] + Repeat(c, n - 1)
  }

  /**
    The bar of `draw_progress_bar`: `int(length * iteration // total)` copies
    of `fill`, then dashes up to `length`. `None` where the percentage's
    division by `float(total)` fails, at `total == 0`.
  */
  function ProgressBar(iteration: int, total: int, length: int, fill: char): (bar: Option<string>)
    ensures bar.None? <==> total == 0
  {
    if total == 0 then None
    else
      var filled := FloorDiv(length * iteration, total);
      Some(Repeat(fill, filled) + Repeat('-', length - filled))
  }

  lemma MulMonotonic(a: int, b: int, c: int)
    requires a <= b && c >= 0
    ensures a * c <= b * c
  {
    assert b * c - a * c == (b - a) * c;
  }

  /** Part way through, the filled count lies between none and all of the bar. */
  lemma FilledBounds(iteration: int, total: int, length: int)
    requires 0 <= iteration <= total && total > 0 && length >= 0
    ensures 0 <= length * iteration / total <= length
  {
    var p := length * iteration;
    MulMonotonic(0, iteration, length);
    MulMonotonic(iteration, total, length);
    assert 0 <= p <= length * total by {
      assert p == iteration * length && length * total == total * length;
    }
    var filled := p / total;
    assert filled * total <= p by {
      assert p == filled * total + p % total;
    }
    assert filled <= length;
  }

  /** `filled` copies of `fill` and then dashes up to `length`. */
  lemma RepeatBar(fill: char, filled: int, length: int)
    requires 0 <= filled <= length
    ensures var bar := Repeat(fill, filled) + Repeat('-', length - filled);
      && |bar| == length
      && (forall i :: 0 <= i < filled ==> bar[i] == fill)
      && (forall i :: filled <= i < length ==> bar[i] == '-')
  {
    var head := Repeat(fill, filled);
    var tail := Repeat('-', length - filled);
    var bar := head + tail;
    forall i | filled <= i < length ensures bar[i] == '-' {
      assert bar[i] == tail[i - filled];
    }
  }

  /**
    Part way through, the bar has exactly `length` characters: `length * iteration / total` of them filled, the rest dashes.
  */
  lemma ProgressBarShape(iteration: int, total: int, length: int, fill: char)
    requires 0 <= iteration <= total && total > 0 && length >= 0
    ensures var bar := ProgressBar(iteration, total, length, fill).value;
      var filled := length * iteration / total;
      && 0 <= filled <= length
      && |bar| == length
      && (forall i :: 0 <= i < filled ==> bar[i] == fill)
      && (forall i :: filled <= i < length ==> bar[i] == '-')
  {
    FilledBounds(iteration, total, length);
    RepeatBar(fill, length * iteration / total, length);
  }
}
