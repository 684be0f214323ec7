/**
 The line-preserving translation of `translate_text`: blank text gives "" and
 makes no service call; otherwise every line is translated on its own, blank
 lines become "", and the lines are joined back with "\n".
 */
module Translate {
  import opened Strings

  /** The translation service: `(line, target language code) -> translated line` (source language Arabic). */
  type Translator = (string, string) -> string

  /** What `translate_text` returns, together with the lines it sent to the service, in order. */
  datatype Translation = Translation(text: string, calls: seq<string>)

  /** The reference meaning of one line: blank lines become "", any other line is translated. */
  function TranslateLine(tr: Translator, line: string, target: string): string {
    if IsBlank(line) then "" else tr(line, target)
  }

  /** The non-blank lines, in order: the lines the service should be asked about. */
  function NonBlank(lines: seq<string>): seq<string> {
    if |lines| == 0 then []
    else (if IsBlank(lines[0]) then [] else [lines[0]]) + NonBlank(lines[1..])
  }

  lemma {:induction false} NonBlankAppend(lines: seq<string>, line: string)
    ensures NonBlank(lines + [line]) == NonBlank(lines) + (if IsBlank(line) then [] else [line])
  {
    if |lines| > 0 {
      assert (lines + [line])[1..] == lines[1..] + [line];
      NonBlankAppend(lines[1..], line);
    } else {
      assert NonBlank([line]) == (if IsBlank(line) then [] else [line]) + NonBlank([]);
    }
  }

  lemma {:induction false} NonBlankHasNoBlank(lines: seq<string>)
    ensures forall k :: 0 <= k < |NonBlank(lines)| ==> !IsBlank(NonBlank(lines)[k])
    ensures |NonBlank(lines)| <= |lines|
  {
    if |lines| > 0 {
      NonBlankHasNoBlank(lines[1..]);
    }
  }

  /**
   The loop over the split lines: appends one output line per input line and
   calls the service once for each non-blank line, in input order.
   */
  function TranslateLines(tr: Translator, lines: seq<string>, target: string): (r: (seq<string>, seq<string>))
    ensures |r.0| == |lines|
    ensures forall i :: 0 <= i < |lines| ==> r.0[i] == TranslateLine(tr, lines[i], target)
    ensures r.1 == NonBlank(lines)
  {
    if |lines| == 0 then ([], [])
    else
      var line := lines[|lines| - 1];
      var prev := TranslateLines(tr, lines[..|lines| - 1], target);
      NonBlankAppend(lines[..|lines| - 1], line);
      assert lines[..|lines| - 1] + [line] == lines;
      if IsBlank(line) then (prev.0 + [""], prev.1)
      else (prev.0 + [tr(line, target)], prev.1 + [line])
  }

  /** `translate_text(text, target)`. */
  function TranslateText(tr: Translator, text: string, target: string): (r: Translation)
    ensures IsBlank(text) ==> r.text == "" && r.calls == []
    ensures !IsBlank(text) ==> r.calls == NonBlank(Split(text, '\n'))
    ensures forall k :: 0 <= k < |r.calls| ==> !IsBlank(r.calls[k])
  {
    if IsBlank(text) then Translation("", [])
    else
      var lines := Split(text, '\n');
      var out := TranslateLines(tr, lines, target);
      NonBlankHasNoBlank(lines);
      Translation(Join(out.0, '\n'), out.1)
  }

  /** The translator never puts a line break into the translation of a non-blank line of `text`. */
  predicate KeepsLinesWhole(tr: Translator, text: string, target: string) {
    var lines := Split(text, '\n');
    forall i :: 0 <= i < |lines| && !IsBlank(lines[i]) ==> '\n' !in tr(lines[i], target)
  }

  /** The translator never answers a non-blank line of `text` with "". */
  predicate NeverEmpty(tr: Translator, text: string, target: string) {
    var lines := Split(text, '\n');
    forall i :: 0 <= i < |lines| && !IsBlank(lines[i]) ==> tr(lines[i], target) != ""
  }

  /**
   For non-blank text, the output has as many lines as the input, blank input
   lines become "", and every other line i is the translation of input line i.
   */
  lemma LinesPreserved(tr: Translator, text: string, target: string)
    requires !IsBlank(text)
    requires KeepsLinesWhole(tr, text, target)
    ensures |Split(TranslateText(tr, text, target).text, '\n')| == |Split(text, '\n')|
    ensures forall i :: 0 <= i < |Split(text, '\n')| ==>
      Split(TranslateText(tr, text, target).text, '\n')[i] == TranslateLine(tr, Split(text, '\n')[i], target)
  {
    var lines := Split(text, '\n');
    var out := TranslateLines(tr, lines, target).0;
    forall k | 0 <= k < |out| ensures '\n' !in out[k] {
      assert out[k] == TranslateLine(tr, lines[k], target);
    }
    SplitJoin(out, '\n');
  }

  /** With a translator that never answers "", output line i is "" exactly when input line i is blank. */
  lemma BlankLinesKept(tr: Translator, text: string, target: string)
    requires !IsBlank(text)
    requires KeepsLinesWhole(tr, text, target)
    requires NeverEmpty(tr, text, target)
    ensures |Split(TranslateText(tr, text, target).text, '\n')| == |Split(text, '\n')|
    ensures forall i :: 0 <= i < |Split(text, '\n')| ==>
      (Split(TranslateText(tr, text, target).text, '\n')[i] == "" <==> IsBlank(Split(text, '\n')[i]))
  {
    LinesPreserved(tr, text, target);
  }

  /** A single non-blank line is sent to the service once and its answer is the whole result. */
  lemma SingleLine(tr: Translator, line: string, target: string)
    requires !IsBlank(line)
    requires '\n' !in line
    ensures TranslateText(tr, line, target) == Translation(tr(line, target), [line])
  {
    SplitWithoutSeparator(line, '\n');
    assert NonBlank([line]) == [line] + NonBlank([]);
  }
}
