/**
 * The progress-line parser: finds the leftmost `time=HH:MM:SS.CC` field in
 * one line of the encoder's diagnostic stream and turns it into elapsed
 * time and, when the total duration is known and positive, a percentage
 * capped at 100.
 */
module ProgressParser {
  import opened Wrappers
  import opened Decimal

  /** Length of a `time=HH:MM:SS.CC` field. */
  const MatchLength: nat := 16

  /** Where the four captured groups start inside a match. */
  const HoursAt: nat := 5
  const MinutesAt: nat := 8
  const SecondsAt: nat := 11
  const CentisAt: nat := 14

  /** Two ASCII digits at positions i and i + 1: `\d{2}`. */
  predicate DigitPair(t: string, i: nat) {
    i + 2 <= |t| && IsDigit(t[i]) && IsDigit(t[i + 1])
  }

  /** `t` starts with a field `time=(\d{2}):(\d{2}):(\d{2})\.(\d{2})`. */
  predicate IsTimeField(t: string) {
    && MatchLength <= |t|
    && t[0] == 't' && t[1] == 'i' && t[2] == 'm' && t[3] == 'e' && t[4] == '='
    && DigitPair(t, HoursAt) && t[7] == ':'
    && DigitPair(t, MinutesAt) && t[10] == ':'
    && DigitPair(t, SecondsAt) && t[13] == '.'
    && DigitPair(t, CentisAt)
  }

  /** The pattern matches `line` starting at position k. */
  predicate MatchesAt(line: string, k: nat) {
    k <= |line| && IsTimeField(line[k..])
  }

  /** k is where `re.search` reports the match: the pattern matches there and nowhere before. */
  predicate LeftmostMatch(line: string, k: nat) {
    MatchesAt(line, k) && forall j :: 0 <= j < k ==> !MatchesAt(line, j)
  }

  /** The leftmost match at or after position i. */
  function FindFrom(line: string, i: nat): (r: Option<nat>)
    ensures r.Some? ==> i <= r.value && MatchesAt(line, r.value)
    ensures r.Some? ==> forall j :: i <= j < r.value ==> !MatchesAt(line, j)
    ensures r.None? ==> forall j: nat :: i <= j ==> !MatchesAt(line, j)
    decreases |line| - i
  {
    if |line| < i + MatchLength then None
    else if MatchesAt(line, i) then Some(i)
    else FindFrom(line, i + 1)
  }

  /** A match begins with the `t` of `time=` and has a colon seven characters further on. */
  lemma MatchedText(line: string, k: nat)
    ensures MatchesAt(line, k) ==> k + MatchLength <= |line| && line[k] == 't' && line[k + 7] == ':'
  {
    if k + MatchLength <= |line| {
      assert line[k..][0] == line[k] && line[k..][7] == line[k + 7];
    }
  }

  /** `int()` of the captured two-digit group at position i. */
  function Group(t: string, i: nat): (v: nat)
    requires DigitPair(t, i)
    ensures v == 10 * DigitValue(t[i]) + DigitValue(t[i + 1])
  {
    var g := t[i..i + 2];
    assert g[0] == t[i] && g[1] == t[i + 1];
    assert g[..1][..0] == [] && g[..1][0] == g[0];
    assert ValueOf(g[..1]) == DigitValue(g[0]);
    ValueOf(g)
  }

  /** The elapsed time of a time field, in whole centiseconds. */
  function FieldCentis(t: string): nat
    requires IsTimeField(t)
  {
    Group(t, HoursAt) * 360000 + Group(t, MinutesAt) * 6000 + Group(t, SecondsAt) * 100 + Group(t, CentisAt)
  }

  /** The elapsed time of the match at k, in whole centiseconds. */
  function ElapsedCentis(line: string, k: nat): nat
    requires MatchesAt(line, k)
  {
    FieldCentis(line[k..])
  }

  /** The centiseconds of a match split back into its whole seconds H*3600 + M*60 + S and its centiseconds CC. */
  lemma CentisParts(line: string, k: nat)
    requires MatchesAt(line, k)
    ensures var f := line[k..];
      && ElapsedCentis(line, k) / 100 == Group(f, HoursAt) * 3600 + Group(f, MinutesAt) * 60 + Group(f, SecondsAt)
      && ElapsedCentis(line, k) % 100 == Group(f, CentisAt)
  {
    var f := line[k..];
    var whole := Group(f, HoursAt) * 3600 + Group(f, MinutesAt) * 60 + Group(f, SecondsAt);
    assert ElapsedCentis(line, k) == whole * 100 + Group(f, CentisAt);
  }

  /** `hours * 3600 + minutes * 60 + seconds + centiseconds / 100`, over the reals. */
  function ElapsedSeconds(line: string, k: nat): (t: real)
    requires MatchesAt(line, k)
    ensures t == ElapsedCentis(line, k) as real / 100.0
    ensures 0.0 <= t
  {
    var f := line[k..];
    (Group(f, HoursAt) * 3600 + Group(f, MinutesAt) * 60 + Group(f, SecondsAt)) as real
      + Group(f, CentisAt) as real / 100.0
  }

  /** `min(elapsed / total * 100, 100)`. */
  function Percent(elapsed: real, total: real): (p: real)
    requires 0.0 <= elapsed && 0.0 < total
    ensures 0.0 <= p <= 100.0
    ensures p == 100.0 <==> elapsed >= total
    ensures elapsed <= total ==> p * total == elapsed * 100.0
  {
    var ratio := elapsed / total * 100.0;
    if ratio <= 100.0 then ratio else 100.0
  }

  /** What the parser returns for a matching line: the percentage and the elapsed seconds. */
  datatype Sample = Sample(percent: real, elapsed: real)

  /** The sample for an elapsed time of `centis` centiseconds against a positive total. */
  function SampleOf(centis: nat, total: real): Sample
    requires 0.0 < total
  {
    var elapsed := centis as real / 100.0;
    Sample(Percent(elapsed, total), elapsed)
  }

  /**
   * The parser: None stands for the pair `(None, None)`. A match is used
   * only when the total duration is known and positive.
   */
  function ParseProgress(line: string, total: Option<real>): (r: Option<Sample>)
    ensures r.Some? ==> total.Some? && total.value > 0.0
    ensures r.Some? ==> 0.0 <= r.value.percent <= 100.0
    ensures r.Some? ==> (r.value.percent == 100.0 <==> r.value.elapsed >= total.value)
  {
    match FindFrom(line, 0)
    case None => None
    case Some(k) =>
      var elapsed := ElapsedSeconds(line, k);
      if total.Some? && total.value > 0.0 then Some(Sample(Percent(elapsed, total.value), elapsed))
      else None
  }

  /** Two leftmost matches are the same match. */
  lemma LeftmostUnique(line: string, k1: nat, k2: nat)
    requires LeftmostMatch(line, k1) && LeftmostMatch(line, k2)
    ensures k1 == k2
  {
  }

  /**
   * For a line whose leftmost match is at k and a known positive total, the
   * sample carries the elapsed time of that match, in seconds, and its percentage.
   */
  lemma ParseAtLeftmost(line: string, k: nat, total: real)
    requires LeftmostMatch(line, k) && 0.0 < total
    ensures ParseProgress(line, Some(total)) == Some(SampleOf(ElapsedCentis(line, k), total))
  {
    var r := FindFrom(line, 0);
    assert r.Some?;
    LeftmostUnique(line, k, r.value);
  }

  /** A sample comes back exactly when the line has a match and the total is known and positive. */
  lemma SampleIffMatch(line: string, total: Option<real>)
    ensures ParseProgress(line, total).Some? <==> (exists k: nat :: MatchesAt(line, k)) && total.Some? && total.value > 0.0
  {
    if total.Some? && total.value > 0.0 && exists k: nat :: MatchesAt(line, k) {
      assert FindFrom(line, 0).Some?;
    }
  }

  /** A line without any match yields no sample, whatever the total. */
  lemma NoMatchNoSample(line: string, total: Option<real>)
    requires forall k: nat :: !MatchesAt(line, k)
    ensures ParseProgress(line, total) == None
  {
  }

  /** An unknown or non-positive total discards the elapsed time too. */
  lemma UnknownTotalNoSample(line: string, total: Option<real>)
    requires total.None? || total.value <= 0.0
    ensures ParseProgress(line, total) == None
  {
  }

  /** Later samples of the same run never show a smaller percentage. */
  lemma PercentMonotone(e1: real, e2: real, total: real)
    requires 0.0 <= e1 <= e2 && 0.0 < total
    ensures Percent(e1, total) <= Percent(e2, total)
  {
    assert e1 / total <= e2 / total;
  }

  /** Hours are exactly two digits: a time field past 99 hours is not recognised. */
  lemma ExampleHundredHours(line: string)
    requires line == "time=100:00:00.00"
    ensures ParseProgress(line, Some(360000.0)) == None
  {
    forall k: nat
      ensures !MatchesAt(line, k)
    {
      MatchedText(line, k);
    }
    NoMatchNoSample(line, Some(360000.0));
  }

  /** A match needs a `t` where it starts, so a prefix without one holds no match. */
  lemma NoMatchBefore(line: string, k: nat)
    requires k <= |line| && 't' !in line[..k]
    ensures forall j :: 0 <= j < k ==> !MatchesAt(line, j)
  {
    forall j | 0 <= j < k
      ensures !MatchesAt(line, j)
    {
      MatchedText(line, j);
      assert line[..k][j] == line[j];
    }
  }

  /** One minute into a two-minute video is half way. */
  lemma ExampleHalfway(line: string)
    requires line == "time=00:01:00.00"
    ensures ParseProgress(line, Some(120.0)) == Some(Sample(50.0, 60.0))
  {
    assert line[0..] == line;
    assert IsTimeField(line);
    assert FieldCentis(line) == 6000;
    ParseAtLeftmost(line, 0, 120.0);
  }

  /** Past the end of the video the percentage stays at 100 while the elapsed time goes on. */
  lemma ExamplePastEnd(line: string)
    requires line == "time=00:02:10.00"
    ensures ParseProgress(line, Some(120.0)) == Some(Sample(100.0, 130.0))
  {
    assert line[0..] == line;
    assert IsTimeField(line);
    assert FieldCentis(line) == 13000;
    ParseAtLeftmost(line, 0, 120.0);
  }

  /** A status line without a time field carries no progress. */
  lemma ExampleNoTimeField(line: string)
    requires line == "frame=120 fps=30"
    ensures ParseProgress(line, Some(120.0)) == None
  {
    forall k: nat
      ensures !MatchesAt(line, k)
    {
      MatchedText(line, k);
    }
    NoMatchNoSample(line, Some(120.0));
  }

  /** A one-digit hour does not fit the pattern. */
  lemma ExampleMisshapedTime(line: string)
    requires line == "time=1:00:00.00 "
    ensures ParseProgress(line, Some(120.0)) == None
  {
    forall k: nat
      ensures !MatchesAt(line, k)
    {
      MatchedText(line, k);
    }
    NoMatchNoSample(line, Some(120.0));
  }

  /** A match in `s` is a match in `before + s`, shifted by the length of `before`, and the other way round. */
  lemma MatchShift(before: string, s: string, k: nat)
    ensures MatchesAt(before + s, |before| + k) <==> MatchesAt(s, k)
    ensures MatchesAt(s, k) ==> ElapsedCentis(before + s, |before| + k) == ElapsedCentis(s, k)
  {
    if k <= |s| {
      assert (before + s)[|before| + k..] == s[k..];
    }
  }

  /** The leftmost match of `s` is, shifted, the leftmost match of `before + s` when `before` holds no `t`. */
  lemma LeftmostAfterPrefix(before: string, s: string, k: nat)
    requires 't' !in before && LeftmostMatch(s, k)
    ensures LeftmostMatch(before + s, |before| + k)
  {
    var line := before + s;
    assert line[..|before|] == before;
    NoMatchBefore(line, |before|);
    MatchShift(before, s, k);
    forall j | |before| <= j < |before| + k
      ensures !MatchesAt(line, j)
    {
      MatchShift(before, s, j - |before|);
    }
  }

  /** A line without a match keeps having none after a prefix without a `t`. */
  lemma NoMatchAfterPrefix(before: string, s: string)
    requires 't' !in before && forall j: nat :: !MatchesAt(s, j)
    ensures forall j: nat :: !MatchesAt(before + s, j)
  {
    var line := before + s;
    assert line[..|before|] == before;
    NoMatchBefore(line, |before|);
    forall j: nat | |before| <= j
      ensures !MatchesAt(line, j)
    {
      MatchShift(before, s, j - |before|);
    }
  }

  /** The search finds exactly the leftmost match. */
  lemma FindLeftmost(line: string, k: nat)
    requires LeftmostMatch(line, k)
    ensures FindFrom(line, 0) == Some(k)
  {
    var r := FindFrom(line, 0);
    assert r.Some?;
    LeftmostUnique(line, k, r.value);
  }

  /** Searching `before + s`, where `before` holds no `t`, finds the match of `s`, shifted. */
  lemma FindAfterPrefix(before: string, s: string)
    requires 't' !in before
    ensures FindFrom(s, 0).None? ==> FindFrom(before + s, 0).None?
    ensures FindFrom(s, 0).Some? ==> FindFrom(before + s, 0) == Some(|before| + FindFrom(s, 0).value)
  {
    var r := FindFrom(s, 0);
    if r.None? {
      NoMatchAfterPrefix(before, s);
    } else {
      LeftmostAfterPrefix(before, s, r.value);
      FindLeftmost(before + s, |before| + r.value);
    }
  }

  /** Two lines whose leftmost matches give the same elapsed time give the same sample. */
  lemma SameElapsedSameSample(line: string, k: nat, other: string, j: nat, total: real)
    requires LeftmostMatch(line, k) && LeftmostMatch(other, j) && 0.0 < total
    requires ElapsedCentis(line, k) == ElapsedCentis(other, j)
    ensures ParseProgress(line, Some(total)) == ParseProgress(other, Some(total))
  {
    ParseAtLeftmost(line, k, total);
    ParseAtLeftmost(other, j, total);
  }

  /** A sample from the leftmost match survives a prefix without a `t` unchanged. */
  lemma ParseShiftedMatch(before: string, s: string, k: nat, total: real)
    requires 't' !in before && LeftmostMatch(s, k) && 0.0 < total
    ensures ParseProgress(before + s, Some(total)) == ParseProgress(s, Some(total))
  {
    LeftmostAfterPrefix(before, s, k);
    MatchShift(before, s, k);
    SameElapsedSameSample(before + s, |before| + k, s, k, total);
  }

  /** Text without a `t` in front of a line does not change what the parser reports. */
  lemma ParseAfterPrefix(before: string, s: string, total: Option<real>)
    requires 't' !in before
    ensures ParseProgress(before + s, total) == ParseProgress(s, total)
  {
    var r := FindFrom(s, 0);
    if total.None? || total.value <= 0.0 {
      UnknownTotalNoSample(s, total);
      UnknownTotalNoSample(before + s, total);
    } else if r.None? {
      NoMatchAfterPrefix(before, s);
      NoMatchNoSample(s, total);
      NoMatchNoSample(before + s, total);
    } else {
      ParseShiftedMatch(before, s, r.value, total.value);
    }
  }

  /** A time field stays one, worth the same, whatever text follows it. */
  lemma TimeFieldExtends(t: string, rest: string)
    requires IsTimeField(t)
    ensures IsTimeField(t + rest) && FieldCentis(t + rest) == FieldCentis(t)
  {
    var u := t + rest;
    assert u[..MatchLength] == t[..MatchLength];
  }

  /** Of two time fields on one line the first one counts: whatever follows `time=00:00:30.50`, the sample is its. */
  lemma ExampleTwoFields(first: string, rest: string)
    requires first == "time=00:00:30.50"
    ensures ParseProgress(first + rest, Some(61.0)) == Some(Sample(50.0, 30.5))
  {
    assert IsTimeField(first);
    assert FieldCentis(first) == 3050;
    TimeFieldExtends(first, rest);
    assert (first + rest)[0..] == first + rest;
    ParseAtLeftmost(first + rest, 0, 61.0);
  }

  /** The same holds whatever text without a `t` precedes the first field. */
  lemma ExampleTwoFieldsAfterPrefix(before: string, first: string, rest: string)
    requires 't' !in before && first == "time=00:00:30.50"
    ensures ParseProgress(before + (first + rest), Some(61.0)) == Some(Sample(50.0, 30.5))
  {
    ExampleTwoFields(first, rest);
    ParseAfterPrefix(before, first + rest, Some(61.0));
  }
}
