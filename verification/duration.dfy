/** The video duration probe: finding `Duration: HH:MM:SS.cc` in the decoder's
    output and computing the frame timestamp at the middle of the video.
    Durations are kept in centiseconds and the midpoint in milliseconds, so
    no fractional arithmetic is needed. */
module Duration {
  import opened Wrappers
  import opened Strings

  const Marker: string := "Duration: "

  /** Length of a match: the marker and `HH:MM:SS.cc`. */
  const MatchLength: nat := 21

  /** The four fields the pattern captures. */
  datatype Clock = Clock(hours: nat, minutes: nat, seconds: nat, centis: nat)

  predicate TwoDigitsAt(s: string, i: int) {
    0 <= i && i + 2 <= |s| && IsDigit(s[i]) && IsDigit(s[i + 1])
  }

  function TwoDigitValue(s: string, i: int): (v: nat)
    requires TwoDigitsAt(s, i)
    ensures v < 100
  {
    DigitValue(s[i]) * 10 + DigitValue(s[i + 1])
  }

  /** `/Duration: (\d{2}):(\d{2}):(\d{2}\.\d{2})/` matches at position `i`. */
  predicate MatchAt(s: string, i: int) {
    && 0 <= i && i + MatchLength <= |s|
    && s[i..i + |Marker|] == Marker
    && TwoDigitsAt(s, i + 10) && s[i + 12] == ':'
    && TwoDigitsAt(s, i + 13) && s[i + 15] == ':'
    && TwoDigitsAt(s, i + 16) && s[i + 18] == '.'
    && TwoDigitsAt(s, i + 19)
  }

  /** The captured fields of the match at `i`. */
  function ClockAt(s: string, i: int): (c: Clock)
    requires MatchAt(s, i)
    ensures c.hours < 100 && c.minutes < 100 && c.seconds < 100 && c.centis < 100
  {
    Clock(TwoDigitValue(s, i + 10), TwoDigitValue(s, i + 13), TwoDigitValue(s, i + 16), TwoDigitValue(s, i + 19))
  }

  /** The leftmost match at or after `from`, or -1. */
  function FirstMatchFrom(s: string, from: nat): (r: int)
    ensures r == -1 || (from <= r && MatchAt(s, r))
    ensures forall j :: from <= j && (r == -1 || j < r) ==> !MatchAt(s, j)
    decreases |s| - from
  {
    if from + MatchLength > |s| then -1
    else if MatchAt(s, from) then from
    else FirstMatchFrom(s, from + 1)
  }

  function NoDurationMessage(output: string): string {
    "Could not determine video duration. FFmpeg output: " + output
  }

  /** `output.match(...)`: the fields of the leftmost match, or the error that
      carries the whole tool output. */
  function ParseDuration(output: string): (r: Result<Clock, string>)
    ensures r.Ok? <==> exists i :: MatchAt(output, i)
    ensures r.Ok? ==> exists i :: MatchAt(output, i) && r.value == ClockAt(output, i)
                                  && forall j :: 0 <= j < i ==> !MatchAt(output, j)
    ensures r.Err? ==> r.error == NoDurationMessage(output)
  {
    var i := FirstMatchFrom(output, 0);
    if i < 0 then Err(NoDurationMessage(output)) else Ok(ClockAt(output, i))
  }

  /** `hours * 3600 + minutes * 60 + seconds`, in centiseconds. */
  function TotalCentis(c: Clock): nat {
    (c.hours * 3600 + c.minutes * 60 + c.seconds) * 100 + c.centis
  }

  /** `totalSeconds / 2`, in milliseconds: exactly half the duration, strictly
      inside the video when it is not empty, and zero when it is. */
  function MidpointMillis(totalCentis: nat): (m: nat)
    ensures 2 * m == 10 * totalCentis
    ensures totalCentis > 0 ==> 0 < m < 10 * totalCentis
    ensures totalCentis == 0 ==> m == 0
  {
    5 * totalCentis
  }

  function TwoDigits(n: nat): (r: string)
    requires n < 100
    ensures |r| == 2 && TwoDigitsAt(r, 0) && TwoDigitValue(r, 0) == n
  {
    [DigitChar(n / 10), DigitChar(n % 10)]
  }

  /** The text the decoder prints for a clock value. */
  function FormatClock(c: Clock): string
    requires c.hours < 100 && c.minutes < 100 && c.seconds < 100 && c.centis < 100
  {
    Marker + TwoDigits(c.hours) + ":" + TwoDigits(c.minutes) + ":"
      + TwoDigits(c.seconds) + "." + TwoDigits(c.centis)
  }

  /** A printed duration at the start of the output is read back exactly,
      whatever follows it. */
  lemma ParseFormatted(c: Clock, rest: string)
    requires c.hours < 100 && c.minutes < 100 && c.seconds < 100 && c.centis < 100
    ensures ParseDuration(FormatClock(c) + rest) == Ok(c)
  {
    var s := FormatClock(c) + rest;
    var h, m, sec, cc := TwoDigits(c.hours), TwoDigits(c.minutes), TwoDigits(c.seconds), TwoDigits(c.centis);
    assert s[10..12] == h && s[13..15] == m && s[16..18] == sec && s[19..21] == cc;
    assert s[..10] == Marker;
    assert MatchAt(s, 0);
    assert ClockAt(s, 0) == c;
  }

  /** An output without the marker yields the error. */
  lemma NoMarkerNoDuration(output: string)
    requires !Contains(output, Marker)
    ensures ParseDuration(output) == Err(NoDurationMessage(output))
  {
    forall i | MatchAt(output, i)
      ensures OccursAt(output, Marker, i)
    {
    }
  }
}
