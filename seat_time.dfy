/**
 * The expiry engine: the expiry instant given on assignment (`setSeat`) and
 * on renewal (`renewSeat`), renewal eligibility (`isRenewable`) and the clamp
 * that `renewSeatEndTime` applies to one seat after the opening or closing
 * time changes. `now` is the current epoch second and `sod` the current
 * second of the local day; all expiries are epoch seconds.
 */
module SeatTime {
  import opened LibraryConfig
  import opened OperatingWindow

  /** The expiry `setSeat` stores: the session length, cut short by closing time. */
  function AssignedEndTime(c: Config, now: int, sod: int): (r: int)
    requires ValidWindow(c) && ValidSod(sod)
    ensures r - now <= c.maxTime * 60 && r - now <= LeftSeconds(c, sod)
    ensures r - now == c.maxTime * 60 || r - now == LeftSeconds(c, sod)
  {
    var leftTime := LeftSeconds(c, sod);
    if c.maxTime * 60 > leftTime then now + leftTime else now + c.maxTime * 60
  }

  /** In 24-hour mode an assignment always gets the full session length. */
  lemma AssignedEndTimeAlwaysOpen(c: Config, now: int, sod: int)
    requires Valid(c) && ValidSod(sod) && AlwaysOpen(c)
    ensures AssignedEndTime(c, now, sod) == now + c.maxTime * 60
  {
    AlwaysOpenNeverBinds(c, sod);
  }

  /**
   * The expiry `renewSeat` stores: the current expiry extended by a session
   * length, or closing time when the extension would overshoot it.
   */
  function RenewedEndTime(c: Config, endTime: int, now: int, sod: int): (r: int)
    requires ValidWindow(c) && ValidSod(sod)
    ensures r <= now + LeftSeconds(c, sod) && r <= endTime + c.maxTime * 60
    ensures r == now + LeftSeconds(c, sod) || r == endTime + c.maxTime * 60
    // a renewal never moves an expiry that is not past closing earlier
    ensures c.maxTime >= 0 && endTime - now <= LeftSeconds(c, sod) ==> r >= endTime
  {
    var leftTime := LeftSeconds(c, sod);
    if endTime - now + c.maxTime * 60 > leftTime then now + leftTime
    else endTime + c.maxTime * 60
  }

  /** Renewing straight after assigning never gives an earlier expiry than the assignment did. */
  lemma RenewAfterAssignNotEarlier(c: Config, now: int, sod: int)
    requires Valid(c) && ValidSod(sod)
    ensures RenewedEndTime(c, AssignedEndTime(c, now, sod), now, sod) >= AssignedEndTime(c, now, sod)
  {
  }

  /**
   * In 24-hour mode the sentinel can still bind on renewal: the extension is
   * granted in full exactly when it ends within 86401 seconds of `now`, and is
   * cut to `now + 86401` otherwise.
   */
  lemma RenewAlwaysOpen(c: Config, endTime: int, now: int, sod: int)
    requires ValidWindow(c) && ValidSod(sod) && AlwaysOpen(c)
    ensures RenewedEndTime(c, endTime, now, sod) == endTime + c.maxTime * 60 <==>
              endTime - now + c.maxTime * 60 <= AlwaysOpenSeconds
    ensures endTime - now + c.maxTime * 60 > AlwaysOpenSeconds ==>
              RenewedEndTime(c, endTime, now, sod) == now + AlwaysOpenSeconds
  {
  }

  /** Once the epoch is a day old, renewing an occupied seat gives a positive expiry, so the seat stays occupied. */
  lemma RenewKeepsOccupied(c: Config, endTime: int, now: int, sod: int)
    requires Valid(c) && ValidSod(sod)
    requires now >= SecondsPerDay && endTime > 0
    ensures RenewedEndTime(c, endTime, now, sod) > 0
  {
  }

  /**
   * `isRenewable`: within the renewal lead of the expiry and, outside 24-hour
   * mode, with the expiry strictly before closing. The three branches of the
   * source each spell out the time to closing; the contract says that each of
   * them is `leftSeconds`.
   */
  function IsRenewable(c: Config, endTime: int, now: int, sod: int): (r: bool)
    requires ValidWindow(c) && ValidSod(sod)
    ensures r <==> endTime - now <= c.maxRenewableTime * 60
                   && (AlwaysOpen(c) || endTime - now < LeftSeconds(c, sod))
  {
    var answer :=
      if c.openTime < c.closeTime then
        !(endTime - now >= c.closeTime * 60 - sod)
      else if c.openTime > c.closeTime then
        if c.openTime * 60 - sod >= 0 then !(endTime - now >= c.closeTime * 60 - sod)
        else !(endTime - now >= c.closeTime * 60 + 24 * 60 * 60 - sod)
      else true;
    (endTime - now <= c.maxRenewableTime * 60) && answer
  }

  /**
   * The clamp `renewSeatEndTime` applies to one seat with a positive expiry
   * outside 24-hour mode, branch by branch as the source has it. In the
   * overnight branch after opening the test uses tomorrow's closing instant
   * but the new value is today's (no `+ 86400`), which lies in the past.
   */
  function ClampedEndTime(c: Config, endTime: int, now: int, sod: int): (r: int)
    requires ValidWindow(c) && ValidSod(sod)
    ensures r <= endTime
    ensures !AlwaysOpen(c) ==> r <= now + LeftSeconds(c, sod)
    // an expiry that is not past closing is left alone
    ensures endTime <= now + LeftSeconds(c, sod) ==> r == endTime
    // only the overnight branch after opening clamps below closing time
    ensures !AlwaysOpen(c) && !(c.openTime > c.closeTime && sod > c.openTime * 60) ==>
              r == if endTime > now + LeftSeconds(c, sod) then now + LeftSeconds(c, sod) else endTime
  {
    if c.openTime < c.closeTime then
      if endTime - now >= c.closeTime * 60 - sod then now + c.closeTime * 60 - sod else endTime
    else if c.openTime > c.closeTime then
      if c.openTime * 60 - sod >= 0 then
        if endTime - now > c.closeTime * 60 - sod then now + c.closeTime * 60 - sod else endTime
      else
        if endTime - now > c.closeTime * 60 + 24 * 60 * 60 - sod then now + c.closeTime * 60 - sod else endTime
    else endTime
  }

  /** When the epoch is at least a day old, the clamp never turns a positive expiry into 0 or -1. */
  lemma ClampedEndTimePositive(c: Config, endTime: int, now: int, sod: int)
    requires ValidWindow(c) && ValidSod(sod)
    requires now >= SecondsPerDay && endTime > 0
    ensures ClampedEndTime(c, endTime, now, sod) > 0
  {
  }

  /** For any expiry at or below zero (free or disabled encodings) the clamp is the identity once the epoch is a day old. */
  lemma ClampedEndTimeKeepsNonPositive(c: Config, endTime: int, now: int, sod: int)
    requires ValidWindow(c) && ValidSod(sod)
    requires now >= SecondsPerDay && endTime <= 0
    ensures ClampedEndTime(c, endTime, now, sod) == endTime
  {
  }
}
