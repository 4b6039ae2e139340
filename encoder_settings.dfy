/**
 * The encoder settings derived from the user's choices: the x264 constant
 * rate factor from the 0..100 quality, the video filter chain from the
 * 1..100 scale percentage, and the argument list the encoder is started with.
 */
module EncoderSettings {
  import opened Wrappers
  import opened Decimal
  import opened Paths

  /** Python's `int(a / b)` for a positive divisor: the quotient truncated toward zero. */
  function TruncDiv(a: int, b: int): (q: int)
    requires 0 < b
    ensures 0 <= a ==> b * q <= a < b * (q + 1)
    ensures a < 0 ==> b * (q - 1) < a <= b * q
  {
    if 0 <= a then a / b else -((-a) / b)
  }

  /**
   * `51 - int(quality * 0.51)`: 51 minus the integer part of quality * 0.51,
   * truncated toward zero (no rounding).
   */
  function Crf(quality: int): (crf: int)
    ensures 0 <= quality ==> (51 - crf) as real <= quality as real * 0.51 < (52 - crf) as real
    ensures quality < 0 ==> (50 - crf) as real < quality as real * 0.51 <= (51 - crf) as real
  {
    var t := TruncDiv(51 * quality, 100);
    assert quality as real * 0.51 == (51 * quality) as real / 100.0;
    assert 0 <= quality ==> t as real <= (51 * quality) as real / 100.0 < (t + 1) as real;
    assert quality < 0 ==> (t - 1) as real < (51 * quality) as real / 100.0 <= t as real;
    51 - t
  }

  /** Every quality the prompt accepts gives a factor x264 accepts, from 51 at quality 0 down to 0 at 100. */
  lemma CrfRange(quality: int)
    requires 0 <= quality <= 100
    ensures 0 <= Crf(quality) <= 51
  {
  }

  lemma CrfExamples()
    ensures Crf(0) == 51 && Crf(100) == 0
    ensures Crf(80) == 11 && Crf(50) == 26 && Crf(1) == 51 && Crf(2) == 50
  {
  }

  /** A higher quality never gives a higher factor. */
  lemma CrfAntitone(q1: int, q2: int)
    requires q1 <= q2
    ensures Crf(q2) <= Crf(q1)
  {
    TruncDivMonotone(51 * q1, 51 * q2, 100);
  }

  lemma TruncDivMonotone(a1: int, a2: int, b: int)
    requires a1 <= a2 && 0 < b
    ensures TruncDiv(a1, b) <= TruncDiv(a2, b)
  {
  }

  const EvenScale: string := "scale=trunc(iw/2)*2:trunc(ih/2)*2"
  const FpsCap: string := ",fps=fps=min(source_fps\\,59.94)"

  /**
   * The `-vf` value: both dimensions scaled by scale/100 and rounded down to
   * even, or only rounded down to even at scale 100, then the frame-rate cap.
   * `showRatio` stands for Python's text of the float `scale / 100`.
   */
  function VideoFilter(scale: int, showRatio: real -> string): (vf: string)
    ensures |FpsCap| <= |vf| && vf[|vf| - |FpsCap|..] == FpsCap
    ensures scale == 100 <==> |EvenScale| <= |vf| && vf[..|EvenScale|] == EvenScale
  {
    var ratio := showRatio(scale as real / 100.0);
    var scaleClause :=
      if scale != 100 then "scale=trunc(iw*" + ratio + "/2)*2:trunc(ih*" + ratio + "/2)*2"
      else EvenScale;
    var vf := scaleClause + FpsCap;
    assert vf[|vf| - |FpsCap|..] == FpsCap;
    assert scale != 100 ==> vf[14] == '*' && EvenScale[14] == '/';
    vf
  }

  /**
   * The argument list of `video_encoder.py` (lines 118-141) around its four computed values: the
   * input path, the `-crf` value, the `-vf` value and the output path, each
   * right after the option that takes it, with overwrite (`-y`) just before
   * the output.
   */
  function EncoderArgs(inputArg: string, crfArg: string, filterArg: string, outputArg: string): (cmd: seq<string>)
    ensures |cmd| == 21 && cmd[0] == "ffmpeg"
    ensures cmd[1] == "-i" && cmd[2] == inputArg
    ensures cmd[5] == "-crf" && cmd[6] == crfArg
    ensures cmd[15] == "-vf" && cmd[16] == filterArg
    ensures cmd[19] == "-y" && cmd[20] == outputArg
  {
    [
      "ffmpeg",
      "-i", inputArg,
      "-c:v", "libx264",
      "-crf", crfArg,
      "-preset", "faster",
      "-threads", "4",
      "-c:a", "aac",
      "-b:a", "128k",
      "-vf", filterArg,
      "-progress", "pipe:1", "-y", outputArg
    ]
  }

  /**
   * The encoder's argument list for an input, a quality and a scale: it reads
   * the input path, reads back exactly the computed factor from `-crf`, gets
   * the filter chain, and writes the derived output path.
   */
  function EncoderCommand(input: Path, quality: int, scale: int, showRatio: real -> string): (cmd: seq<string>)
    ensures |cmd| == 21 && cmd[2] == PathString(input)
    ensures Parse(cmd[6]) == Some(Crf(quality))
    ensures cmd[16] == VideoFilter(scale, showRatio)
    ensures cmd[20] == PathString(OutputPath(input))
  {
    ShowParse(Crf(quality));
    EncoderArgs(PathString(input), Show(Crf(quality)), VideoFilter(scale, showRatio), PathString(OutputPath(input)))
  }

  /** For every quality the prompt accepts, the `-crf` argument is one or two digits naming a factor in 0..51. */
  lemma CommandCrfDigits(input: Path, quality: int, scale: int, showRatio: real -> string)
    requires 0 <= quality <= 100
    ensures var arg := EncoderCommand(input, quality, scale, showRatio)[6];
      1 <= |arg| <= 2 && AllDigits(arg) && ValueOf(arg) == Crf(quality)
  {
    CrfRange(quality);
    ValueOfDigitsOf(Crf(quality));
    var arg := DigitsOf(Crf(quality));
    Power10Grows(|arg| - 1);
  }
}
