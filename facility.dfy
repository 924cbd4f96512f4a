/**
 * The state updates of the main loop and of the administrator menu, with the
 * console left out: start-up, the per-interaction tick, and the opening and
 * closing time edits that trigger reconciliation.
 */
module Facility {
  import opened Wrappers
  import opened LibraryConfig
  import opened OperatingWindow
  import opened SeatTable

  /** `init`: a fresh table of `SEATS` seats, all free. */
  method Init() returns (seats: array<Seat>)
    ensures fresh(seats) && seats.Length == SeatCount
    ensures forall j :: 0 <= j < seats.Length ==> seats[j] == FreeSeat
  {
    seats := new Seat[SeatCount];
    ghost var before := seats[..];
    ResetSeats(seats, true);
    ResetAllEffect(before, true);
  }

  /** One tick of `main`: sweep expired seats, then outside operating hours reset all non-disabled seats. */
  function TickAll(t: seq<Seat>, c: Config, now: int, sod: int): (r: seq<Seat>)
    ensures |r| == |t|
    // no positive expiry before `now` survives a tick
    ensures forall j :: 0 <= j < |t| ==> !(0 < r[j].endTime < now)
    // outside operating hours nobody holds a seat
    ensures !IsOperationTime(c, sod) ==> forall j :: 0 <= j < |t| ==> r[j].name == "" && r[j].endTime <= 0
  {
    var swept := SweepAll(t, now);
    if c.openTime != c.closeTime && !IsOperationTime(c, sod) then ResetAll(swept, false) else swept
  }

  /**
   * A tick keeps the encoding and every disabled seat; outside operating
   * hours it leaves no seat occupied, and during them it only frees expired seats.
   */
  lemma TickEffect(t: seq<Seat>, c: Config, now: int, sod: int)
    requires WellFormedTable(t)
    ensures |TickAll(t, c, now, sod)| == |t|
    ensures WellFormedTable(TickAll(t, c, now, sod))
    ensures forall j :: 0 <= j < |t| && StatusOf(t[j]).Disabled? ==> StatusOf(TickAll(t, c, now, sod)[j]).Disabled?
    ensures !IsOperationTime(c, sod) ==>
              forall j :: 0 <= j < |t| ==> !StatusOf(TickAll(t, c, now, sod)[j]).Occupied?
    ensures IsOperationTime(c, sod) ==> TickAll(t, c, now, sod) == SweepAll(t, now)
  {
    SweepAllEffect(t, now);
    ResetAllEffect(SweepAll(t, now), false);
  }

  method Tick(seats: array<Seat>, c: Config, now: int, sod: int)
    modifies seats
    ensures seats[..] == TickAll(old(seats[..]), c, now, sod)
  {
    SeatInvalidCheck(seats, now);
    if c.openTime != c.closeTime {
      if !IsOperationTime(c, sod) {
        ResetSeats(seats, false);
      }
    }
  }

  /** Administrator option 4: an accepted opening time is stored and the table reconciled; a rejected one changes nothing. */
  method EditOpenTime(seats: array<Seat>, c: Config, hours: int, minutes: int, now: int, sod: int)
    returns (r: Result<Config, ConfigError>)
    requires ValidWindow(c) && ValidSod(sod)
    modifies seats
    ensures r == SetOpenTime(c, hours, minutes)
    ensures r.Err? ==> seats[..] == old(seats[..])
    ensures r.Ok? ==> ValidWindow(r.value) && seats[..] == Reconciled(old(seats[..]), r.value, now, sod)
  {
    r := SetOpenTime(c, hours, minutes);
    if r.Ok? {
      RenewSeatEndTime(seats, r.value, now, sod);
    }
  }

  /** Administrator option 5: the same for the closing time. */
  method EditCloseTime(seats: array<Seat>, c: Config, hours: int, minutes: int, now: int, sod: int)
    returns (r: Result<Config, ConfigError>)
    requires ValidWindow(c) && ValidSod(sod)
    modifies seats
    ensures r == SetCloseTime(c, hours, minutes)
    ensures r.Err? ==> seats[..] == old(seats[..])
    ensures r.Ok? ==> ValidWindow(r.value) && seats[..] == Reconciled(old(seats[..]), r.value, now, sod)
  {
    r := SetCloseTime(c, hours, minutes);
    if r.Ok? {
      RenewSeatEndTime(seats, r.value, now, sod);
    }
  }
}
