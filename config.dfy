/**
 * The facility configuration (`LibraryData`): maximum session length,
 * renewal lead, opening and closing minute of the day, and the validating
 * edits the administrator menu performs on it.
 *
 * The console re-prompts until a value passes its range check and restores
 * the previous value meanwhile; here an edit is a function that either
 * returns the updated configuration or `Err`, in which case the caller keeps
 * its old configuration unchanged.
 */
module LibraryConfig {
  import opened Wrappers

  const MinutesPerDay: int := 1440

  /** All four values are minutes; `openTime == closeTime` means 24-hour operation. */
  datatype Config = Config(maxTime: int, maxRenewableTime: int, openTime: int, closeTime: int)

  datatype ConfigError =
    | MaxTimeOutOfRange
    | RenewableTimeOutOfRange
    | OpenTimeOutOfRange
    | CloseTimeOutOfRange

  /** Opening and closing times are minutes of a day. */
  predicate ValidWindow(c: Config) {
    && 0 <= c.openTime < MinutesPerDay
    && 0 <= c.closeTime < MinutesPerDay
  }

  /** The invariant every administrator edit keeps. */
  predicate Valid(c: Config) {
    && 0 < c.maxTime <= MinutesPerDay
    && 0 <= c.maxRenewableTime <= MinutesPerDay
    && c.maxRenewableTime <= c.maxTime
    && ValidWindow(c)
  }

  /** 24-hour mode: no closing time clamps anything. */
  predicate AlwaysOpen(c: Config) {
    c.openTime == c.closeTime
  }

  /** The start-up configuration: 4 hours, 30 minutes lead, open 23:59 to 23:59. */
  function Default(): (c: Config)
    ensures Valid(c) && AlwaysOpen(c)
    ensures c.maxTime == 240 && c.maxRenewableTime == 30
    ensures c.openTime == c.closeTime == MinutesPerDay - 1
  {
    Config(240, 30, MinutesPerDay - 1, MinutesPerDay - 1)
  }

  /** Every edit reads an hour value and a minute value and stores hours * 60 + minutes. */
  function Entered(hours: int, minutes: int): int {
    hours * 60 + minutes
  }

  /** Menu 2: a new maximum session length; the renewal lead is lowered to it when it exceeds it. */
  function SetMaxTime(c: Config, hours: int, minutes: int): (r: Result<Config, ConfigError>)
    ensures r.Ok? <==> 0 < Entered(hours, minutes) <= MinutesPerDay
    ensures r.Err? ==> r.error == MaxTimeOutOfRange
    ensures r.Ok? ==> r.value.maxTime == Entered(hours, minutes)
    ensures r.Ok? ==> r.value.openTime == c.openTime && r.value.closeTime == c.closeTime
    ensures r.Ok? && c.maxRenewableTime <= Entered(hours, minutes) ==> r.value.maxRenewableTime == c.maxRenewableTime
    ensures r.Ok? && c.maxRenewableTime > Entered(hours, minutes) ==> r.value.maxRenewableTime == r.value.maxTime
    ensures r.Ok? && Valid(c) ==> Valid(r.value)
  {
    var v := Entered(hours, minutes);
    if v <= 0 || v > 24 * 60 then Err(MaxTimeOutOfRange)
    else
      var c1 := c.(maxTime := v);
      if c1.maxTime < c1.maxRenewableTime then Ok(c1.(maxRenewableTime := c1.maxTime)) else Ok(c1)
  }

  /** Menu 3: a new renewal lead, at most a day and at most the session length. */
  function SetMaxRenewableTime(c: Config, hours: int, minutes: int): (r: Result<Config, ConfigError>)
    ensures r.Ok? <==> 0 <= Entered(hours, minutes) <= MinutesPerDay && Entered(hours, minutes) <= c.maxTime
    ensures r.Err? ==> r.error == RenewableTimeOutOfRange
    ensures r.Ok? ==> r.value == c.(maxRenewableTime := Entered(hours, minutes))
    ensures r.Ok? && Valid(c) ==> Valid(r.value)
  {
    var v := Entered(hours, minutes);
    if (v < 0 || v > 24 * 60) || c.maxTime < v then Err(RenewableTimeOutOfRange)
    else Ok(c.(maxRenewableTime := v))
  }

  /** Menu 4: a new opening minute of the day. */
  function SetOpenTime(c: Config, hours: int, minutes: int): (r: Result<Config, ConfigError>)
    ensures r.Ok? <==> 0 <= Entered(hours, minutes) < MinutesPerDay
    ensures r.Err? ==> r.error == OpenTimeOutOfRange
    ensures r.Ok? ==> r.value == c.(openTime := Entered(hours, minutes))
    ensures r.Ok? && Valid(c) ==> Valid(r.value)
  {
    var v := Entered(hours, minutes);
    if v < 0 || v >= 24 * 60 then Err(OpenTimeOutOfRange) else Ok(c.(openTime := v))
  }

  /** Menu 5: a new closing minute of the day. */
  function SetCloseTime(c: Config, hours: int, minutes: int): (r: Result<Config, ConfigError>)
    ensures r.Ok? <==> 0 <= Entered(hours, minutes) < MinutesPerDay
    ensures r.Err? ==> r.error == CloseTimeOutOfRange
    ensures r.Ok? ==> r.value == c.(closeTime := Entered(hours, minutes))
    ensures r.Ok? && Valid(c) ==> Valid(r.value)
  {
    var v := Entered(hours, minutes);
    if v < 0 || v >= 24 * 60 then Err(CloseTimeOutOfRange) else Ok(c.(closeTime := v))
  }

  /** One menu edit (2, 3, 4 or 5) with its hour and minute entries; a rejected entry keeps `c`. */
  function ApplyEdit(c: Config, e: (nat, int, int)): (r: Config)
    ensures Valid(c) ==> Valid(r)
  {
    var res :=
      if e.0 == 2 then SetMaxTime(c, e.1, e.2)
      else if e.0 == 3 then SetMaxRenewableTime(c, e.1, e.2)
      else if e.0 == 4 then SetOpenTime(c, e.1, e.2)
      else if e.0 == 5 then SetCloseTime(c, e.1, e.2)
      else Ok(c);
    if res.Ok? then res.value else c
  }

  function ApplyEdits(c: Config, edits: seq<(nat, int, int)>): Config
    decreases |edits|
  {
    if edits == [] then c else ApplyEdits(ApplyEdit(c, edits[0]), edits[1..])
  }

  /** However the administrator edits, the configuration stays valid. */
  lemma {:induction false} EditsKeepValid(c: Config, edits: seq<(nat, int, int)>)
    requires Valid(c)
    ensures Valid(ApplyEdits(c, edits))
    decreases |edits|
  {
    if edits != [] {
      var c1 := ApplyEdit(c, edits[0]);
      EditsKeepValid(c1, edits[1..]);
    }
  }
}
