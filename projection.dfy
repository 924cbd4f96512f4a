/**
 * The wall-clock arithmetic of `printEndTime` and `printRenewTime`: the
 * remaining time `endTime - now` is split into hours, minutes and seconds
 * with C's truncating division, added to the current time of day, and
 * carried (and for the renewal deadline, borrowed) back into range, with a
 * flag for "next day". The printing itself is left out; the methods return
 * what would be printed.
 */
module ClockProjection {
  import opened Wrappers
  import opened LibraryConfig
  import opened OperatingWindow
  import opened SeatTable

  /** C's `/` on integers: the quotient truncated toward zero. */
  function TruncDiv(a: int, b: int): (q: int)
    requires b > 0
    ensures q * b + TruncRem(a, b) == a
    // rounded toward zero: q * b lies between 0 and a
    ensures a >= 0 ==> 0 <= q * b <= a
    ensures a < 0 ==> a <= q * b <= 0
  {
    DivModNat(if a >= 0 then a else -a, b);
    if a >= 0 then a / b else -((-a) / b)
  }

  /** C's `%` on integers: the remainder takes the sign of the dividend. */
  function TruncRem(a: int, b: int): (r: int)
    requires b > 0
    ensures -b < r < b
    ensures a >= 0 ==> 0 <= r
    ensures a < 0 ==> r <= 0
  {
    if a >= 0 then a % b else -((-a) % b)
  }

  /** Euclidean division of a non-negative number. */
  lemma DivModNat(n: int, b: int)
    requires n >= 0 && b > 0
    ensures n / b * b + n % b == n && 0 <= n % b < b && 0 <= n / b * b <= n
  {
  }

  /** For a non-negative number of seconds, the C split into h, m, s is in range and adds back up. */
  lemma SplitSeconds(a: int)
    requires a >= 0
    ensures 0 <= TruncDiv(TruncRem(a, 3600), 60) < 60 && 0 <= TruncRem(a, 60) < 60 && 0 <= TruncDiv(a, 3600)
    ensures a == TruncDiv(a, 3600) * 3600 + TruncDiv(TruncRem(a, 3600), 60) * 60 + TruncRem(a, 60)
  {
    var q, r := a / 3600, a % 3600;
    RemainderUnique(a, q * 60 + r / 60, r % 60);
  }

  /** A time of day as printed, with the "next day" (익일) marker. */
  datatype Clock = Clock(hour: int, minute: int, second: int, nextDay: bool)

  /** The sum of hours, minutes and seconds a clock triple stands for. */
  function Seconds(hour: int, minute: int, second: int): int {
    hour * 3600 + minute * 60 + second
  }

  function ClockSeconds(k: Clock): int {
    Seconds(k.hour, k.minute, k.second)
  }

  predicate InRange(k: Clock) {
    0 <= k.hour < 24 && 0 <= k.minute < 60 && 0 <= k.second < 60
  }

  /**
   * `printEndTime`: nothing for a seat without a name; otherwise the expiry as
   * a time of day. For a remaining time that is not negative the clock is in
   * range and shows the expiry's time of day, and the marker is set exactly
   * when the expiry is not today, however many days ahead it lies; for an
   * expiry before the day after tomorrow the marker therefore gives the exact
   * instant.
   */
  method PrintEndTime(seat: Seat, now: int, sod: int) returns (shown: Option<Clock>)
    requires ValidSod(sod)
    ensures shown.None? <==> seat.name == ""
    ensures shown.Some? && 0 <= seat.endTime - now ==>
              && InRange(shown.value)
              && (ClockSeconds(shown.value) - (sod + (seat.endTime - now))) % SecondsPerDay == 0
              && (shown.value.nextDay <==> sod + (seat.endTime - now) >= SecondsPerDay)
    ensures shown.Some? && 0 <= seat.endTime - now && sod + (seat.endTime - now) < 2 * SecondsPerDay ==>
              ClockSeconds(shown.value) + (if shown.value.nextDay then SecondsPerDay else 0) == sod + (seat.endTime - now)
  {
    if |seat.name| == 0 {
      return None;
    }
    var remainSecondOrig := seat.endTime - now;
    var remainHour := TruncDiv(remainSecondOrig, 3600);
    var remainMinute := TruncDiv(TruncRem(remainSecondOrig, 3600), 60);
    var remainSecond := TruncRem(remainSecondOrig, 60);
    var currHour, currMin, currSecond := sod / 3600, (sod % 3600) / 60, sod % 60;
    ghost var good := 0 <= remainSecondOrig;
    if good {
      EndParts(remainSecondOrig, sod);
    }

    var computeSecond := remainSecond + currSecond;
    var computeMinute := remainMinute + currMin;
    var computeHour := remainHour + currHour;
    if computeSecond >= 60 {
      Carry(computeSecond, 60);
      computeMinute := computeMinute + computeSecond / 60;
      computeSecond := computeSecond % 60;
    }
    assert good ==> 0 <= computeSecond < 60 && 0 <= computeMinute < 120;
    if computeMinute >= 60 {
      Carry(computeMinute, 60);
      computeHour := computeHour + computeMinute / 60;
      computeMinute := computeMinute % 60;
    }
    assert good ==> 0 <= computeMinute < 60 && 0 <= computeHour;
    assert good ==> Seconds(computeHour, computeMinute, computeSecond) == sod + remainSecondOrig;
    var isTomorrow := false;
    ghost var days := 0;
    if computeHour >= 24 {
      days := computeHour / 24;
      computeHour := computeHour % 24;
      isTomorrow := true;
    }
    shown := Some(Clock(computeHour, computeMinute, computeSecond, isTomorrow));
    if good {
      DayMultiple(ClockSeconds(shown.value), days, sod + remainSecondOrig);
    }
  }

  /** The three sums `printEndTime` starts from stand for the expiry instant and are small. */
  lemma EndParts(remain: int, sod: int)
    requires ValidSod(sod) && 0 <= remain
    ensures var hour := TruncDiv(remain, 3600) + sod / 3600;
            var minute := TruncDiv(TruncRem(remain, 3600), 60) + (sod % 3600) / 60;
            var second := TruncRem(remain, 60) + sod % 60;
            && Seconds(hour, minute, second) == sod + remain
            && 0 <= second < 120 && 0 <= minute < 120 && 0 <= hour
  {
    SplitSeconds(remain);
    SplitSeconds(sod);
  }

  /** One carry of a value between one and two units. */
  lemma Carry(x: int, unit: int)
    requires 0 < unit <= x < 2 * unit
    ensures x / unit == 1 && x % unit == x - unit
  {
  }

  /**
   * The closing-time test of `printRenewTime`, branch by branch as written
   * there: it holds exactly when, outside 24-hour mode, the remaining time
   * reaches the time left until closing.
   */
  function ClosingBlocksRenewal(c: Config, remain: int, currHour: int, currMin: int, currSecond: int): (r: bool)
    requires ValidWindow(c) && ValidSod(currHour * 3600 + currMin * 60 + currSecond)
    ensures r <==> !AlwaysOpen(c) && remain >= LeftSeconds(c, currHour * 3600 + currMin * 60 + currSecond)
  {
    if c.openTime < c.closeTime then
      remain >= c.closeTime * 60 - currHour * 60 * 60 - currMin * 60 - currSecond
    else if c.openTime > c.closeTime then
      if c.openTime * 60 - currHour * 60 * 60 - currMin * 60 - currSecond >= 0 then
        remain >= c.closeTime * 60 - currHour * 60 * 60 - currMin * 60 - currSecond
      else
        remain >= c.closeTime * 60 + 24 * 60 * 60 - currHour * 60 * 60 - currMin * 60 - currSecond
    else false
  }

  /** What `printRenewTime` prints: nothing, "연장 불가" (cannot renew), or the time from which renewal opens. */
  datatype RenewView = NoOccupant | NotRenewable | RenewFrom(clock: Clock)

  /**
   * `printRenewTime`: the expiry minus the renewal lead, as a time of day.
   * "Cannot renew" is shown exactly when, outside 24-hour mode, the expiry is
   * not before closing. The borrow loop terminates with minute and hour in
   * range and never touches the seconds; the clock always shows a time of day
   * congruent to the true instant, and for a non-negative remaining time that
   * ends before the day after tomorrow it is that instant's time of day, with
   * the marker set exactly when the instant falls tomorrow.
   */
  method PrintRenewTime(seat: Seat, c: Config, now: int, sod: int) returns (v: RenewView)
    requires Valid(c) && ValidSod(sod)
    ensures v.NoOccupant? <==> seat.name == ""
    ensures seat.name != "" ==>
              (v.NotRenewable? <==> !AlwaysOpen(c) && seat.endTime - now >= LeftSeconds(c, sod))
    ensures v.RenewFrom? ==> 0 <= v.clock.hour < 24 && 0 <= v.clock.minute < 60
    ensures v.RenewFrom? ==>
              (ClockSeconds(v.clock) - (sod + (seat.endTime - now) - c.maxRenewableTime * 60)) % SecondsPerDay == 0
    ensures v.RenewFrom? && 0 <= seat.endTime - now ==>
              InRange(v.clock) && v.clock.second == (sod + (seat.endTime - now)) % 60
    ensures v.RenewFrom? && 0 <= seat.endTime - now && sod + (seat.endTime - now) < 2 * SecondsPerDay ==>
              && ClockSeconds(v.clock) == (sod + (seat.endTime - now) - c.maxRenewableTime * 60) % SecondsPerDay
              && (v.clock.nextDay <==> sod + (seat.endTime - now) - c.maxRenewableTime * 60 >= SecondsPerDay)
  {
    if |seat.name| == 0 {
      return NoOccupant;
    }
    var remainSecondOrig := seat.endTime - now;
    var remainHour := TruncDiv(remainSecondOrig, 3600);
    var remainMinute := TruncDiv(TruncRem(remainSecondOrig, 3600), 60);
    var remainSecond := TruncRem(remainSecondOrig, 60);
    var currHour, currMin, currSecond := sod / 3600, (sod % 3600) / 60, sod % 60;

    SplitSeconds(sod);
    var computeSecond := remainSecond + currSecond;
    var computeMinute := remainMinute + currMin - c.maxRenewableTime % 60;
    var computeHour := remainHour + currHour - c.maxRenewableTime / 60;

    if ClosingBlocksRenewal(c, seat.endTime - now, currHour, currMin, currSecond) {
      return NotRenewable;
    }

    RenewParts(remainSecondOrig, sod, c.maxRenewableTime);
    var clock := NormalizeRenewClock(computeHour, computeMinute, computeSecond);
    v := RenewFrom(clock);
  }

  /** The three sums `printRenewTime` starts from stand for the deadline instant, and are small when the remaining time is. */
  lemma RenewParts(remain: int, sod: int, lead: int)
    requires ValidSod(sod) && 0 <= lead <= MinutesPerDay
    ensures var hour := TruncDiv(remain, 3600) + sod / 3600 - lead / 60;
            var minute := TruncDiv(TruncRem(remain, 3600), 60) + (sod % 3600) / 60 - lead % 60;
            var second := TruncRem(remain, 60) + sod % 60;
            && Seconds(hour, minute, second) == sod + remain - lead * 60
            && (0 <= remain ==> 0 <= second < 120 && (if second >= 60 then second % 60 else second) == (sod + remain) % 60)
            && (0 <= remain && sod + remain < 2 * SecondsPerDay ==> RenewBounded(hour, minute, second))
  {
    TruncSplit(remain);
    SplitSeconds(sod);
    if 0 <= remain {
      SplitSeconds(remain);
    }
  }

  /** The ranges `printRenewTime` produces from a non-negative remaining time that ends before the day after tomorrow. */
  predicate RenewBounded(hour: int, minute: int, second: int) {
    0 <= second < 120 && -60 < minute < 119 && hour < 48 && Seconds(hour, minute, second) < 2 * SecondsPerDay
  }

  /**
   * The normalisation at the end of `printRenewTime`: carry seconds and
   * minutes upward, fold hours of 24 or more into the next day, then borrow
   * until neither minute nor hour is negative (a borrowed day clears the
   * next-day marker).
   */
  method NormalizeRenewClock(hour: int, minute: int, second: int) returns (k: Clock)
    ensures 0 <= k.hour < 24 && 0 <= k.minute < 60
    ensures k.second == if second >= 60 then second % 60 else second
    ensures (ClockSeconds(k) - Seconds(hour, minute, second)) % SecondsPerDay == 0
    ensures RenewBounded(hour, minute, second) ==>
              && InRange(k)
              && ClockSeconds(k) == Seconds(hour, minute, second) % SecondsPerDay
              && (k.nextDay <==> Seconds(hour, minute, second) >= SecondsPerDay)
  {
    ghost var target := Seconds(hour, minute, second);
    ghost var good := RenewBounded(hour, minute, second);
    var computeHour, computeMinute, computeSecond := hour, minute, second;
    var isTomorrow := false;
    ghost var days := 0;
    if computeSecond >= 60 {
      if good {
        Carry(computeSecond, 60);
      }
      computeMinute := computeMinute + computeSecond / 60;
      computeSecond := computeSecond % 60;
    }
    if computeMinute >= 60 {
      if good {
        Carry(computeMinute, 60);
      }
      computeHour := computeHour + computeMinute / 60;
      computeMinute := computeMinute % 60;
    }
    assert computeHour * 3600 + computeMinute * 60 + computeSecond == target;
    assert good ==> 0 <= computeSecond < 60 && -60 < computeMinute < 60 && computeHour < 48;
    if computeHour >= 24 {
      if good {
        Carry(computeHour, 24);
      }
      days := computeHour / 24;
      computeHour := computeHour % 24;
      isTomorrow := true;
    }
    ghost var second0 := computeSecond;

    while computeMinute < 0 || computeHour < 0
      invariant computeMinute < 60 && computeHour < 24
      invariant computeSecond == second0
      invariant computeHour * 3600 + computeMinute * 60 + computeSecond + SecondsPerDay * days == target
      invariant good ==> days <= 1 && (isTomorrow <==> days == 1)
      decreases (if computeMinute < 0 then -computeMinute else 0), (if computeHour < 0 then -computeHour else 0)
    {
      if computeMinute < 0 {
        computeHour := computeHour - 1;
        computeMinute := computeMinute + 60;
      }
      if computeHour < 0 {
        computeHour := computeHour + 24;
        isTomorrow := false;
        days := days - 1;
      }
    }
    k := Clock(computeHour, computeMinute, computeSecond, isTomorrow);
    DayMultiple(ClockSeconds(k), days, target);
  }

  /** C's split of any number of seconds into truncated hours, minutes and seconds adds back up. */
  lemma TruncSplit(a: int)
    ensures a == TruncDiv(a, 3600) * 3600 + TruncDiv(TruncRem(a, 3600), 60) * 60 + TruncRem(a, 60)
  {
    var b := if a < 0 then -a else a;
    SplitSeconds(b);
    assert TruncDiv(a, 3600) == (if a < 0 then -TruncDiv(b, 3600) else TruncDiv(b, 3600));
    assert TruncRem(a, 3600) == (if a < 0 then -TruncRem(b, 3600) else TruncRem(b, 3600));
    assert TruncDiv(TruncRem(a, 3600), 60) == (if a < 0 then -TruncDiv(TruncRem(b, 3600), 60) else TruncDiv(TruncRem(b, 3600), 60));
    assert TruncRem(a, 60) == (if a < 0 then -TruncRem(b, 60) else TruncRem(b, 60));
  }

  /** A number of seconds has only one split into whole minutes and leftover seconds. */
  lemma RemainderUnique(x: int, q: int, r: int)
    requires 0 <= r < 60 && x == q * 60 + r
    ensures x % 60 == r
  {
  }

  /** A clock value that differs from `t` by whole days is congruent to it, and is `t`'s time of day when in range. */
  lemma DayMultiple(x: int, days: int, t: int)
    requires x + SecondsPerDay * days == t
    ensures (x - t) % SecondsPerDay == 0
    ensures 0 <= x < SecondsPerDay ==> x == t % SecondsPerDay && days == t / SecondsPerDay
  {
  }
}
