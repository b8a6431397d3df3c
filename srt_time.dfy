/** Decoding an SRT timestamp `HH:MM:SS,mmm` to integer milliseconds (`parseSRTTime`). */
module SrtTime {
  import opened Text
  import opened Captions

  /** `((H * 3600 + M * 60 + S) * 1000) + mmm` */
  function Millis(h: int, m: int, s: int, ms: int): int {
    (h * 3600 + m * 60 + s) * 1000 + ms
  }

  /** `parseSRTTime(timeStr)`: trim, split on ',' into time and milliseconds, split the
      time on ':' into hours, minutes and seconds, and combine. Pieces beyond the ones
      destructured are ignored, as in the source. A piece that is missing or is not a
      non-empty string of digits gives None where the source computes NaN. */
  function ParseSrtTime(timeStr: string): (r: Option<int>)
    ensures r.Some? ==> r.value >= 0
  {
    ParseFields(SplitOn(Trim(timeStr), ","))
  }

  /** The second half of `parseSRTTime`: from the pieces `[time, ms, ...]` of the comma split. */
  function ParseFields(parts: seq<string>): (r: Option<int>)
    ensures r.Some? ==> r.value >= 0
  {
    if |parts| < 2 then None
    else
      var hms := SplitOn(parts[0], ":");
      var ms := parts[1];
      if |hms| < 3 || !IsDigits(hms[0]) || !IsDigits(hms[1]) || !IsDigits(hms[2]) || !IsDigits(ms) then None
      else Some(Millis(DigitsValue(hms[0]), DigitsValue(hms[1]), DigitsValue(hms[2]), DigitsValue(ms)))
  }

  /** The comma pieces `[HH:MM:SS, mmm]` with digit fields give the formula. */
  lemma {:induction false} ParseFieldsClock(hh: string, mm: string, ss: string, mmm: string)
    requires IsDigits(hh) && IsDigits(mm) && IsDigits(ss) && IsDigits(mmm)
    ensures ParseFields([hh + ":" + mm + ":" + ss, mmm])
         == Some(Millis(DigitsValue(hh), DigitsValue(mm), DigitsValue(ss), DigitsValue(mmm)))
  {
    var time := hh + ":" + mm + ":" + ss;
    StampSplitColon(hh, mm, ss);
    assert SplitOn(time, ":") == [hh, mm, ss];
  }

  /** `HH:MM:SS,mmm` with digit fields is its own trim. */
  lemma StampTrimmed(hh: string, mm: string, ss: string, mmm: string)
    requires IsDigits(hh) && IsDigits(mm) && IsDigits(ss) && IsDigits(mmm)
    ensures Trim(hh + ":" + mm + ":" + ss + "," + mmm) == hh + ":" + mm + ":" + ss + "," + mmm
  {
    var stamp := hh + ":" + mm + ":" + ss + "," + mmm;
    assert stamp[0] == hh[0] && stamp[|stamp| - 1] == mmm[|mmm| - 1];
    TrimUnchanged(stamp);
  }

  /** Splitting `HH:MM:SS,mmm` on ',' separates the time from the milliseconds. */
  lemma {:induction false} StampSplitComma(hh: string, mm: string, ss: string, mmm: string)
    requires IsDigits(hh) && IsDigits(mm) && IsDigits(ss) && IsDigits(mmm)
    ensures SplitOn(hh + ":" + mm + ":" + ss + "," + mmm, ",") == [hh + ":" + mm + ":" + ss, mmm]
  {
    var time := hh + ":" + mm + ":" + ss;
    assert ',' !in time by {
      assert ',' !in hh && ',' !in mm && ',' !in ss;
    }
    assert ',' !in mmm;
    SplitOnFirst(time, ",", mmm);
    SplitOnNone(mmm, ",");
  }

  /** Splitting `HH:MM:SS` on ':' gives the three fields. */
  lemma StampSplitColon(hh: string, mm: string, ss: string)
    requires IsDigits(hh) && IsDigits(mm) && IsDigits(ss)
    ensures SplitOn(hh + ":" + mm + ":" + ss, ":") == [hh, mm, ss]
  {
    assert ':' !in hh && ':' !in mm && ':' !in ss;
    var tail := mm + ":" + ss;
    SplitOnFirst(mm, ":", ss);
    SplitOnNone(ss, ":");
    SplitOnFirst(hh, ":", tail);
    ConcatAssoc(hh + ":", mm + ":", ss);
    ConcatAssoc(hh + ":", mm, ":");
  }

  /** A trimmed timestamp that splits on ',' into two pieces is read from those pieces. */
  lemma {:induction false} ParseSrtTimeSplit(stamp: string, time: string, mmm: string)
    requires Trim(stamp) == stamp && SplitOn(stamp, ",") == [time, mmm]
    ensures ParseSrtTime(stamp) == ParseFields([time, mmm])
  {
  }

  /** A timestamp written `HH:MM:SS,mmm` with digit fields decodes to
      `((H * 3600 + M * 60 + S) * 1000) + mmm`. */
  lemma {:induction false} ParseSrtTimeFields(hh: string, mm: string, ss: string, mmm: string)
    requires IsDigits(hh) && IsDigits(mm) && IsDigits(ss) && IsDigits(mmm)
    ensures ParseSrtTime(hh + ":" + mm + ":" + ss + "," + mmm)
         == Some(Millis(DigitsValue(hh), DigitsValue(mm), DigitsValue(ss), DigitsValue(mmm)))
  {
    var time := hh + ":" + mm + ":" + ss;
    var stamp := time + "," + mmm;
    StampTrimmed(hh, mm, ss, mmm);
    StampSplitComma(hh, mm, ss, mmm);
    ParseSrtTimeSplit(stamp, time, mmm);
    ParseFieldsClock(hh, mm, ss, mmm);
  }

  /** `parseSRTTime("00:01:02,500")` is 62500. */
  lemma ParseSrtTimeExample()
    ensures ParseSrtTime("00:01:02,500") == Some(62500)
  {
    assert Millis(DigitsValue("00"), DigitsValue("01"), DigitsValue("02"), DigitsValue("500")) == 62500 by {
      assert DigitsValue("00") == 0 by { assert "00"[..1] == "0"; }
      assert DigitsValue("01") == 1 by { assert "01"[..1] == "0"; }
      assert DigitsValue("02") == 2 by { assert "02"[..1] == "0"; }
      assert DigitsValue("500") == 500 by { assert "500"[..2] == "50" && "50"[..1] == "5"; }
    }
    assert "00" + ":" + "01" + ":" + "02" + "," + "500" == "00:01:02,500";
    ParseSrtTimeFields("00", "01", "02", "500");
  }

  /** A timestamp without a millisecond separator does not decode. */
  lemma ParseSrtTimeNoComma(timeStr: string)
    requires ',' !in Trim(timeStr)
    ensures ParseSrtTime(timeStr) == None
  {
    SplitOnNone(Trim(timeStr), ",");
  }
}
