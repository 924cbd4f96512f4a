/**
 * Operating-window arithmetic (`isOperationTime`, `leftSeconds`).
 *
 * `sod` is the current second of the local day (hour * 3600 + minute * 60 +
 * second as `localtime` gives them). The window runs from `openTime` to
 * `closeTime` minutes; it is a same-day window when open < close, an
 * overnight window when open > close, and 24-hour mode when they are equal.
 */
module OperatingWindow {
  import opened LibraryConfig

  const SecondsPerDay: int := 86400

  /** What `leftSeconds` reports in 24-hour mode: one second more than a day. */
  const AlwaysOpenSeconds: int := 86401

  predicate ValidSod(sod: int) {
    0 <= sod < SecondsPerDay
  }

  /** `isOperationTime`: the facility is closed only between closing and opening. */
  function IsOperationTime(c: Config, sod: int): (r: bool)
    ensures AlwaysOpen(c) ==> r
    ensures c.openTime < c.closeTime ==> (!r <==> sod < c.openTime * 60 || sod >= c.closeTime * 60)
    ensures c.openTime > c.closeTime ==> (!r <==> c.closeTime * 60 <= sod < c.openTime * 60)
  {
    if c.openTime < c.closeTime && (sod >= c.closeTime * 60 || sod < c.openTime * 60) then false
    else if c.openTime > c.closeTime && (sod >= c.closeTime * 60 && sod < c.openTime * 60) then false
    else true
  }

  /** `leftSeconds`: the seconds from `sod` to the closing time the window is heading for. */
  function LeftSeconds(c: Config, sod: int): (r: int)
    requires ValidWindow(c) && ValidSod(sod)
    ensures AlwaysOpen(c) ==> r == AlwaysOpenSeconds
    ensures !AlwaysOpen(c) ==> -SecondsPerDay < r < SecondsPerDay
    // whatever the branch, `sod + r` is a closing instant
    ensures !AlwaysOpen(c) ==> (sod + r) % SecondsPerDay == c.closeTime * 60
  {
    if c.closeTime == c.openTime then AlwaysOpenSeconds
    else if c.closeTime < c.openTime then
      if sod <= c.openTime * 60 then c.closeTime * 60 - sod
      else c.closeTime * 60 + 60 * 60 * 24 - sod
    else c.closeTime * 60 - sod
  }

  /** The minute `m` of the day lies in the cyclic interval [open, close) of minutes. */
  predicate InCyclicWindow(c: Config, m: int) {
    (m - c.openTime) % MinutesPerDay < (c.closeTime - c.openTime) % MinutesPerDay
  }

  /**
   * An independent reading of `isOperationTime`: outside 24-hour mode the
   * facility operates exactly when the minute of the day lies in the cyclic
   * interval from opening to closing, whichever way round the two lie.
   */
  lemma IsOperationTimeIsCyclicWindow(c: Config, sod: int)
    requires ValidWindow(c) && ValidSod(sod)
    ensures IsOperationTime(c, sod) <==> AlwaysOpen(c) || InCyclicWindow(c, sod / 60)
  {
    var m := sod / 60;
    assert 0 <= m < MinutesPerDay;
    assert sod < c.closeTime * 60 <==> m < c.closeTime;
    assert sod < c.openTime * 60 <==> m < c.openTime;
    if c.openTime < c.closeTime {
      assert (c.closeTime - c.openTime) % MinutesPerDay == c.closeTime - c.openTime;
      if m >= c.openTime {
        assert (m - c.openTime) % MinutesPerDay == m - c.openTime;
      } else {
        assert (m - c.openTime) % MinutesPerDay == m - c.openTime + MinutesPerDay;
      }
    } else if c.openTime > c.closeTime {
      assert (c.closeTime - c.openTime) % MinutesPerDay == c.closeTime - c.openTime + MinutesPerDay;
      if m >= c.openTime {
        assert (m - c.openTime) % MinutesPerDay == m - c.openTime;
      } else {
        assert (m - c.openTime) % MinutesPerDay == m - c.openTime + MinutesPerDay;
      }
    }
  }

  /**
   * While the facility operates (and not at the opening second of an overnight
   * window), `leftSeconds` is exactly the time, counted forward around the
   * clock, until the next closing instant, and it is positive.
   */
  lemma LeftSecondsIsTimeToNextClose(c: Config, sod: int)
    requires ValidWindow(c) && ValidSod(sod)
    requires !AlwaysOpen(c) && IsOperationTime(c, sod)
    requires !(c.openTime > c.closeTime && sod == c.openTime * 60)
    ensures 0 < LeftSeconds(c, sod) == (c.closeTime * 60 - sod) % SecondsPerDay
  {
    var r := LeftSeconds(c, sod);
    if c.closeTime < c.openTime && sod > c.openTime * 60 {
      assert r == c.closeTime * 60 - sod + SecondsPerDay;
      assert -SecondsPerDay < c.closeTime * 60 - sod < 0;
    } else {
      assert r == c.closeTime * 60 - sod;
      assert 0 < c.closeTime * 60 - sod < SecondsPerDay;
    }
  }

  /** The 24-hour sentinel is larger than any session length a valid configuration allows. */
  lemma AlwaysOpenNeverBinds(c: Config, sod: int)
    requires Valid(c) && ValidSod(sod) && AlwaysOpen(c)
    ensures c.maxTime * 60 < LeftSeconds(c, sod)
  {
  }
}
