/**
 * The 50-glyph progress bar drawn for each sample: `int(50 * progress / 100)`
 * filled glyphs followed by empty glyphs up to the bar's length.
 */
module ProgressBar {
  import opened Wrappers
  import ProgressParser

  const BarLength: int := 50
  const FilledGlyph: char := '█'
  const EmptyGlyph: char := '░'

  /** Python's `int()` on a real number: truncation toward zero. */
  function Truncate(x: real): (n: int)
    ensures 0.0 <= x ==> n as real <= x < n as real + 1.0
    ensures x < 0.0 ==> n as real - 1.0 < x <= n as real
  {
    if 0.0 <= x then x.Floor else -((-x).Floor)
  }

  /** `c * n` on a one-character string: n copies, none when n is zero or negative. */
  function Repeat(c: char, n: int): (s: string)
    ensures |s| == if n <= 0 then 0 else n
    ensures forall i :: 0 <= i < |s| ==> s[i] == c
  {
    if n <= 0 then [] else seq(n, _ => c)
  }

  /** `int(bar_length * progress / 100)`: half the progress, rounded down for progress of at least 0. */
  function FilledLength(progress: real): (n: int)
    ensures 0.0 <= progress ==> n == (progress / 2.0).Floor
    ensures progress < 0.0 ==> n <= 0
  {
    assert BarLength as real * progress / 100.0 == progress / 2.0;
    Truncate(BarLength as real * progress / 100.0)
  }

  /** The bar for a progress value: filled glyphs exactly below the filled length, empty ones after. */
  function Bar(progress: real): (bar: string)
    ensures forall i :: 0 <= i < |bar| ==> (bar[i] == FilledGlyph <==> i < FilledLength(progress))
    ensures forall i :: 0 <= i < |bar| ==> bar[i] in {FilledGlyph, EmptyGlyph}
  {
    Repeat(FilledGlyph, FilledLength(progress)) + Repeat(EmptyGlyph, BarLength - FilledLength(progress))
  }

  /**
   * For a progress value in [0, 100] the bar has exactly 50 glyphs, the first
   * floor(50 * progress / 100) of them filled and the rest empty.
   */
  lemma BarInRange(progress: real)
    requires 0.0 <= progress <= 100.0
    ensures 0 <= FilledLength(progress) <= BarLength
    ensures FilledLength(progress) == (progress / 2.0).Floor
    ensures |Bar(progress)| == BarLength
    ensures forall i :: 0 <= i < BarLength ==>
      Bar(progress)[i] == (if i < FilledLength(progress) then FilledGlyph else EmptyGlyph)
  {
    assert BarLength as real * progress / 100.0 == progress / 2.0;
  }

  /** A larger progress value never fills fewer glyphs. */
  lemma FilledMonotone(p1: real, p2: real)
    requires 0.0 <= p1 <= p2
    ensures FilledLength(p1) <= FilledLength(p2)
  {
    assert BarLength as real * p1 / 100.0 <= BarLength as real * p2 / 100.0;
  }

  /** The bar drawn for any sample the parser returns is 50 glyphs long. */
  lemma ParsedSampleBar(line: string, total: real)
    requires ProgressParser.ParseProgress(line, Some(total)).Some?
    ensures |Bar(ProgressParser.ParseProgress(line, Some(total)).value.percent)| == BarLength
  {
    BarInRange(ProgressParser.ParseProgress(line, Some(total)).value.percent);
  }

  lemma ExampleBars()
    ensures FilledLength(100.0) == 50 && FilledLength(50.0) == 25 && FilledLength(99.9) == 49
    ensures FilledLength(1.9) == 0
  {
  }
}
