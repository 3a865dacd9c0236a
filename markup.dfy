/** How the App component displays the model's reply (`renderText`): one
    paragraph per line, and within a line the pieces between `**` markers
    alternate between plain and bold. There is no heading or bullet syntax:
    a line starting with `###` or `- ` is an ordinary paragraph. */
module Markup {
  import opened JsString

  const LineBreak: string := "\n"
  const BoldMarker: string := "**"

  /** A piece of a line and whether it is shown in bold. */
  datatype Run = Run(text: string, emphasized: bool)

  type Paragraph = seq<Run>

  /** One line: split on `**`, the pieces at odd positions in bold. Every
      line, the empty one included, gives at least one run, and the first
      run is plain. */
  function RenderLine(line: string): (runs: Paragraph)
    ensures |runs| >= 1 && !runs[0].emphasized
  {
    var parts := Split(line, BoldMarker);
    seq(|parts|, k requires 0 <= k < |parts| => Run(parts[k], k % 2 == 1))
  }

  /** The reply: split on line feeds, every line rendered as a paragraph.
      There is at least one paragraph, and none is without runs. */
  function RenderText(text: string): (paragraphs: seq<Paragraph>)
    ensures |paragraphs| >= 1
    ensures forall i :: 0 <= i < |paragraphs| ==> |paragraphs[i]| >= 1
  {
    var lines := Split(text, LineBreak);
    seq(|lines|, i requires 0 <= i < |lines| => RenderLine(lines[i]))
  }

  /** The texts of the runs of a paragraph, in order. */
  function RunTexts(runs: Paragraph): (texts: seq<string>)
    ensures |texts| == |runs|
  {
    seq(|runs|, k requires 0 <= k < |runs| => runs[k].text)
  }

  /** The line a paragraph came from: its runs re-joined with `**`. */
  function LineOf(runs: Paragraph): string {
    Join(RunTexts(runs), BoldMarker)
  }

  /** The text a rendering came from: its paragraphs' lines joined with line feeds. */
  function Unrender(paragraphs: seq<Paragraph>): string {
    Join(seq(|paragraphs|, i requires 0 <= i < |paragraphs| => LineOf(paragraphs[i])), LineBreak)
  }

  /** A line with `k` markers gives `k + 1` runs, bold exactly at odd
      positions; re-joining the runs with `**` gives the line back, and no run
      shows a `**` marker. */
  lemma RenderLineShape(line: string)
    ensures |RenderLine(line)| == Occurrences(line, BoldMarker) + 1
    ensures forall k :: 0 <= k < |RenderLine(line)| ==> (RenderLine(line)[k].emphasized <==> k % 2 == 1)
    ensures LineOf(RenderLine(line)) == line
    ensures forall k :: 0 <= k < |RenderLine(line)| ==> !Contains(RenderLine(line)[k].text, BoldMarker)
  {
    SplitCount(line, BoldMarker);
    SplitPartsLackSep(line, BoldMarker);
    assert RunTexts(RenderLine(line)) == Split(line, BoldMarker);
  }

  /** A line without `**` has no markers, and is a single plain run
      holding the whole line. */
  lemma PlainLine(line: string)
    requires !Contains(line, BoldMarker)
    ensures Occurrences(line, BoldMarker) == 0
    ensures RenderLine(line) == [Run(line, false)]
  {
    OccurrencesZero(line, BoldMarker);
    SplitWithoutSep(line, BoldMarker);
  }

  /** Unbalanced markers never fail: with an odd number of `**` the last
      run, everything after the last marker, is shown in bold; with an even
      number it is plain. */
  lemma LastRunBoldIffOddMarkers(line: string)
    ensures var runs := RenderLine(line);
      |runs| >= 1 && (runs[|runs| - 1].emphasized <==> Occurrences(line, BoldMarker) % 2 == 1)
  {
    RenderLineShape(line);
  }

  /** `k` line feeds give `k + 1` paragraphs, empty lines included. */
  lemma ParagraphCount(text: string)
    ensures |RenderText(text)| == Occurrences(text, LineBreak) + 1
    ensures |RenderText(text)| == multiset(text)['\n'] + 1
  {
    SplitCount(text, LineBreak);
    OccurrencesOfChar(text, '\n');
  }

  /** Nothing of the reply is lost or reordered: re-joining runs with `**` and
      paragraphs with line feeds gives the reply back. */
  lemma RenderRoundTrip(text: string)
    ensures Unrender(RenderText(text)) == text
  {
    var lines := Split(text, LineBreak);
    var paragraphs := RenderText(text);
    forall i | 0 <= i < |lines|
      ensures LineOf(paragraphs[i]) == lines[i]
    {
      RenderLineShape(lines[i]);
    }
    assert seq(|paragraphs|, i requires 0 <= i < |paragraphs| => LineOf(paragraphs[i])) == lines;
  }

  /** Every paragraph stands for a single line: no paragraph spans a line feed. */
  lemma ParagraphsAreSingleLines(text: string)
    ensures forall i :: 0 <= i < |RenderText(text)| ==> !Contains(LineOf(RenderText(text)[i]), LineBreak)
  {
    var lines := Split(text, LineBreak);
    SplitPartsLackSep(text, LineBreak);
    forall i | 0 <= i < |lines|
      ensures LineOf(RenderText(text)[i]) == lines[i]
    {
      RenderLineShape(lines[i]);
    }
  }

  /** A heading line is not recognised as a heading: it renders as one
      plain paragraph that still shows the `###`. */
  lemma HeadingLineIsPlainParagraph(title: string)
    requires !Contains(title, BoldMarker)
    ensures RenderLine("### " + title) == [Run("### " + title, false)]
  {
    ContainsAfterPrefix("### ", title, BoldMarker);
    PlainLine("### " + title);
  }

  /** A bullet line is not recognised as a list item: `- **word**note`
      renders as the dash in plain, the marked word in bold and the rest in
      plain, like any other line. */
  lemma BulletLineIsPlainParagraph(word: string, note: string)
    requires !Contains(word, BoldMarker) && !Contains(note, BoldMarker)
    requires NoStraddle(word, BoldMarker)
    ensures RenderLine("- " + BoldMarker + (word + BoldMarker + note))
         == [Run("- ", false), Run(word, true), Run(note, false)]
  {
    LacksFirstCharNotContains("- ", BoldMarker);
    SplitWithoutSep(note, BoldMarker);
    SplitAfterPart(word, BoldMarker, note);
    SplitAfterPart("- ", BoldMarker, word + BoldMarker + note);
    var parts := Split("- " + BoldMarker + (word + BoldMarker + note), BoldMarker);
    assert parts == ["- ", word, note];
    var runs := RenderLine("- " + BoldMarker + (word + BoldMarker + note));
    assert |runs| == 3;
    assert runs[0] == Run("- ", false);
    assert runs[1] == Run(word, true);
    assert runs[2] == Run(note, false);
  }
}
