/**
 * Two places where the source's arithmetic contradicts its own comments:
 * each has a lemma that exhibits the discrepancy on the as-written member
 * and a corrected definition with the intended property proved.
 */
module Findings {
  import opened LibraryConfig
  import opened OperatingWindow
  import opened SeatTime

  /** An overnight window from 22:00 to 08:00. */
  function Overnight(): (c: Config)
    ensures Valid(c) && c.openTime > c.closeTime
  {
    Config(240, 30, 22 * 60, 8 * 60)
  }

  // ------------------------------------------- leftSeconds at the opening second

  /**
   * At the very second an overnight window opens, the facility counts as
   * operating but `leftSeconds` is negative (it takes the "after midnight"
   * branch), so a seat assigned at that second already lies in the past.
   */
  lemma LeftSecondsNegativeAtOpening(now: int)
    ensures IsOperationTime(Overnight(), 22 * 3600)
    ensures LeftSeconds(Overnight(), 22 * 3600) == -50400
    ensures AssignedEndTime(Overnight(), now, 22 * 3600) == now - 50400
  {
  }

  /** `leftSeconds` with the evidently intended strict test `sod < OPEN_TIME * 60`. */
  function LeftSecondsFixed(c: Config, sod: int): (r: int)
    requires ValidWindow(c) && ValidSod(sod)
    ensures AlwaysOpen(c) ==> r == AlwaysOpenSeconds
    ensures !AlwaysOpen(c) && IsOperationTime(c, sod) ==>
              0 < r == (c.closeTime * 60 - sod) % SecondsPerDay
  {
    if c.closeTime == c.openTime then AlwaysOpenSeconds
    else if c.closeTime < c.openTime then
      if sod < c.openTime * 60 then c.closeTime * 60 - sod
      else c.closeTime * 60 + 60 * 60 * 24 - sod
    else c.closeTime * 60 - sod
  }

  /** The correction changes the value at the opening second of an overnight window and nowhere else. */
  lemma LeftSecondsFixedAgrees(c: Config, sod: int)
    requires ValidWindow(c) && ValidSod(sod)
    ensures LeftSecondsFixed(c, sod) != LeftSeconds(c, sod) <==>
              c.openTime > c.closeTime && sod == c.openTime * 60
  {
  }

  // ------------------------------------ renewSeatEndTime's overnight clamp

  /**
   * Overnight window 22:00-08:00, at 23:00, a seat due in 40000 s (past the
   * 08:00 closing, 32400 s away): the clamp sets it 54000 s in the PAST
   * instead of to closing, so the next sweep evicts the occupant while the
   * facility is still open.
   */
  lemma ClampLandsInPast(now: int)
    ensures LeftSeconds(Overnight(), 23 * 3600) == 32400
    ensures ClampedEndTime(Overnight(), now + 40000, now, 23 * 3600) == now - 54000
  {
  }

  /**
   * The same boundary in the clamp of `renewSeatEndTime`: at 22:00, the
   * opening second, an occupied seat due in 100 s is moved 50400 s into the past.
   */
  lemma ClampAtOpeningInPast(now: int)
    ensures IsOperationTime(Overnight(), 22 * 3600)
    ensures ClampedEndTime(Overnight(), now + 100, now, 22 * 3600) == now - 50400
  {
  }

  /**
   * The clamp of `renewSeatEndTime` with both defects corrected: the
   * overnight branch test is strict (`sod < OPEN_TIME * 60`, as in
   * `LeftSecondsFixed`), and the after-opening branch clamps to tomorrow's
   * closing (`+ 86400`) as its own test does.
   */
  function ClampedEndTimeFixed(c: Config, endTime: int, now: int, sod: int): (r: int)
    requires ValidWindow(c) && ValidSod(sod)
    // outside 24-hour mode the expiry becomes the earlier of itself and closing time
    ensures !AlwaysOpen(c) ==>
              r == if endTime - now > LeftSecondsFixed(c, sod) then now + LeftSecondsFixed(c, sod) else endTime
    ensures AlwaysOpen(c) ==> r == endTime
  {
    if c.openTime < c.closeTime then
      if endTime - now >= c.closeTime * 60 - sod then now + c.closeTime * 60 - sod else endTime
    else if c.openTime > c.closeTime then
      if sod < c.openTime * 60 then
        if endTime - now > c.closeTime * 60 - sod then now + c.closeTime * 60 - sod else endTime
      else
        if endTime - now > c.closeTime * 60 + 24 * 60 * 60 - sod then now + c.closeTime * 60 + 24 * 60 * 60 - sod else endTime
    else endTime
  }

  /** During operation the corrected clamp moves a seat due after closing to exactly closing time, which lies in the future. */
  lemma ClampedEndTimeFixedAtClosing(c: Config, endTime: int, now: int, sod: int)
    requires ValidWindow(c) && ValidSod(sod) && !AlwaysOpen(c) && IsOperationTime(c, sod)
    requires endTime > now + LeftSecondsFixed(c, sod)
    ensures now < ClampedEndTimeFixed(c, endTime, now, sod) == now + LeftSecondsFixed(c, sod)
  {
  }

  /**
   * The as-written clamp agrees with the corrected one except in the
   * overnight branch from the opening second on, for a seat past the
   * as-written time left; there it sets the seat to the closing instant one
   * day before the corrected one, which is in the past.
   */
  lemma ClampedEndTimeDiffers(c: Config, endTime: int, now: int, sod: int)
    requires ValidWindow(c) && ValidSod(sod)
    ensures ClampedEndTime(c, endTime, now, sod) != ClampedEndTimeFixed(c, endTime, now, sod) <==>
              c.openTime > c.closeTime && sod >= c.openTime * 60 && endTime - now > LeftSeconds(c, sod)
    ensures ClampedEndTime(c, endTime, now, sod) != ClampedEndTimeFixed(c, endTime, now, sod) ==>
              ClampedEndTime(c, endTime, now, sod) == now + LeftSecondsFixed(c, sod) - SecondsPerDay < now
  {
  }
}
