/**
 * The seat table (`SeatsData[SEATS]`) and the operations that rewrite it.
 *
 * A seat keeps the source's encoding: `name` is "" for a seat nobody holds;
 * `endTime` is 0 for a free seat, -1 for a disabled seat and the epoch second
 * of expiry when positive. `StatusOf` reads that encoding as a tagged value.
 * Each in-place operation is a method on the array whose postcondition ties
 * the new contents to a function of the old contents; the lemmas are about
 * those functions.
 */
module SeatTable {
  import opened LibraryConfig
  import opened OperatingWindow
  import opened SeatTime

  /** `SEATS`. */
  const SeatCount: nat := 10

  datatype Seat = Seat(name: string, endTime: int)

  datatype Status = Free | Occupied(occupant: string, expiry: int) | Disabled

  const FreeSeat: Seat := Seat("", 0)

  /** The encoding: a name exactly when the expiry is positive; -1 is the only negative value. */
  predicate WellFormed(s: Seat) {
    s.endTime >= -1 && (s.name == "" <==> s.endTime <= 0)
  }

  predicate WellFormedTable(t: seq<Seat>) {
    forall i :: 0 <= i < |t| ==> WellFormed(t[i])
  }

  function StatusOf(s: Seat): Status
    requires WellFormed(s)
  {
    if s.endTime == -1 then Disabled
    else if s.endTime == 0 then Free
    else Occupied(s.name, s.endTime)
  }

  /** The encoding of a status. */
  function SeatOf(st: Status): Seat {
    match st
    case Free => FreeSeat
    case Disabled => Seat("", -1)
    case Occupied(n, e) => Seat(n, e)
  }

  /** The integer encoding and the tagged status determine each other. */
  lemma StatusRoundTrip(s: Seat, st: Status)
    ensures WellFormed(s) ==> WellFormed(SeatOf(StatusOf(s))) && SeatOf(StatusOf(s)) == s
    ensures (st.Occupied? ==> st.occupant != "" && st.expiry > 0) ==>
              WellFormed(SeatOf(st)) && StatusOf(SeatOf(st)) == st
  {
  }

  // ---------------------------------------------------------------- resetSeats

  function ResetSeat(s: Seat, isFirst: bool): Seat {
    Seat("", if isFirst || s.endTime > 0 then 0 else s.endTime)
  }

  /** After a reset nobody holds a seat; a seat keeps its value only if it was not occupied and this is not the first run. */
  function ResetAll(t: seq<Seat>, isFirst: bool): (r: seq<Seat>)
    ensures |r| == |t|
    ensures forall i :: 0 <= i < |t| ==> r[i].name == "" && r[i].endTime <= 0
    ensures forall i :: 0 <= i < |t| ==> r[i].endTime == 0 || (!isFirst && r[i].endTime == t[i].endTime)
  {
    seq(|t|, i requires 0 <= i < |t| => ResetSeat(t[i], isFirst))
  }

  /** `resetSeats`: on the first run every seat becomes free; later, disabled seats stay disabled and all others become free. */
  lemma ResetAllEffect(t: seq<Seat>, isFirst: bool)
    ensures isFirst ==> forall i :: 0 <= i < |t| ==> ResetAll(t, isFirst)[i] == FreeSeat
    ensures WellFormedTable(t) ==> WellFormedTable(ResetAll(t, isFirst))
    ensures WellFormedTable(t) ==> forall i :: 0 <= i < |t| ==>
              StatusOf(ResetAll(t, isFirst)[i]) == (if !isFirst && StatusOf(t[i]).Disabled? then Disabled else Free)
  {
  }

  method ResetSeats(seats: array<Seat>, isFirst: bool)
    modifies seats
    ensures seats[..] == ResetAll(old(seats[..]), isFirst)
  {
    for i := 0 to seats.Length
      invariant forall j :: 0 <= j < i ==> seats[j] == ResetSeat(old(seats[j]), isFirst)
      invariant forall j :: i <= j < seats.Length ==> seats[j] == old(seats[j])
    {
      seats[i] := seats[i].(name := "");
      if isFirst {
        seats[i] := seats[i].(endTime := 0);
      } else if seats[i].endTime > 0 {
        seats[i] := seats[i].(endTime := 0);
      }
    }
  }

  // ------------------------------------------------------ checkOut, setSeat, renewSeat

  /** `checkOut`: the seat becomes free; nothing else changes. */
  method CheckOut(seats: array<Seat>, location: int)
    requires 0 <= location < seats.Length
    modifies seats
    ensures seats[..] == old(seats[..])[location := FreeSeat]
  {
    seats[location] := seats[location].(name := "");
    seats[location] := seats[location].(endTime := 0);
  }

  /** `setSeat`: the seat gets the name and the assignment expiry; nothing else changes. */
  method SetSeat(seats: array<Seat>, name: string, location: int, c: Config, now: int, sod: int)
    requires 0 <= location < seats.Length
    requires ValidWindow(c) && ValidSod(sod)
    modifies seats
    ensures seats[..] == old(seats[..])[location := Seat(name, AssignedEndTime(c, now, sod))]
  {
    seats[location] := seats[location].(name := name);
    var leftTime := LeftSeconds(c, sod);
    if c.maxTime * 60 > leftTime {
      seats[location] := seats[location].(endTime := now + leftTime);
    } else {
      seats[location] := seats[location].(endTime := now + c.maxTime * 60);
    }
  }

  /**
   * During operating hours (except the opening second of an overnight window)
   * an assignment to a non-empty name expires strictly in the future, so the
   * new seat is well formed and occupied.
   */
  lemma AssignDuringOperation(c: Config, name: string, now: int, sod: int)
    requires Valid(c) && ValidSod(sod) && IsOperationTime(c, sod)
    requires !(c.openTime > c.closeTime && sod == c.openTime * 60)
    requires name != "" && now >= 0
    ensures now < AssignedEndTime(c, now, sod) <= now + c.maxTime * 60
    ensures WellFormed(Seat(name, AssignedEndTime(c, now, sod)))
    ensures StatusOf(Seat(name, AssignedEndTime(c, now, sod))).Occupied?
  {
    if !AlwaysOpen(c) {
      LeftSecondsIsTimeToNextClose(c, sod);
    } else {
      AlwaysOpenNeverBinds(c, sod);
    }
  }

  /** `renewSeat`: only the seat's expiry changes, to the renewal expiry. */
  method RenewSeat(seats: array<Seat>, location: int, c: Config, now: int, sod: int)
    requires 0 <= location < seats.Length
    requires ValidWindow(c) && ValidSod(sod)
    modifies seats
    ensures seats[..] == old(seats[..])[location := old(seats[location]).(endTime := RenewedEndTime(c, old(seats[location].endTime), now, sod))]
  {
    var leftTime := LeftSeconds(c, sod);
    if seats[location].endTime - now + c.maxTime * 60 > leftTime {
      seats[location] := seats[location].(endTime := now + leftTime);
    } else {
      seats[location] := seats[location].(endTime := seats[location].endTime + c.maxTime * 60);
    }
  }

  /** Renewal keeps an occupied seat well formed and occupied by the same person. */
  lemma RenewKeepsEncoding(s: Seat, c: Config, now: int, sod: int)
    requires Valid(c) && ValidSod(sod) && now >= SecondsPerDay
    requires WellFormed(s) && StatusOf(s).Occupied?
    ensures WellFormed(s.(endTime := RenewedEndTime(c, s.endTime, now, sod)))
    ensures StatusOf(s.(endTime := RenewedEndTime(c, s.endTime, now, sod))).Occupied?
    ensures StatusOf(s.(endTime := RenewedEndTime(c, s.endTime, now, sod))).occupant == s.name
  {
    RenewKeepsOccupied(c, s.endTime, now, sod);
  }

  // ------------------------------------------------------------ disable toggle

  /** The tail of administrator option 7: an occupied seat is first checked out, then 0 and -1 swap. */
  function Toggle(s: Seat): (r: Seat)
    // the result is disabled exactly when the seat was not
    ensures s.endTime >= -1 ==> -1 <= r.endTime <= 0 && (r.endTime == -1 <==> s.endTime != -1)
    ensures s.endTime > 0 ==> r.name == ""
    ensures s.endTime <= 0 ==> r.name == s.name
  {
    var s1 := if s.endTime > 0 then s.(name := "", endTime := 0) else s;
    s1.(endTime := -1 - s1.endTime)
  }

  /** Free becomes disabled, disabled becomes free, an occupied seat loses its occupant and becomes disabled. */
  lemma ToggleEffect(s: Seat)
    requires WellFormed(s)
    ensures WellFormed(Toggle(s))
    ensures StatusOf(Toggle(s)) == if StatusOf(s).Disabled? then Free else Disabled
    ensures !StatusOf(s).Occupied? ==> Toggle(Toggle(s)) == s
  {
  }

  method ToggleSeat(seats: array<Seat>, location: int)
    requires 0 <= location < seats.Length
    modifies seats
    ensures seats[..] == old(seats[..])[location := Toggle(old(seats[location]))]
  {
    if seats[location].endTime > 0 {
      seats[location] := seats[location].(name := "");
      seats[location] := seats[location].(endTime := 0);
    }
    seats[location] := seats[location].(endTime := -1 - seats[location].endTime);
  }

  // ---------------------------------------------------------- seatInvalidCheck

  function ExpireSeat(s: Seat, now: int): Seat {
    if s.endTime < now && s.endTime > 0 then FreeSeat else s
  }

  /** After a sweep no positive expiry lies before `now`; every seat is kept or freed. */
  function SweepAll(t: seq<Seat>, now: int): (r: seq<Seat>)
    ensures |r| == |t|
    ensures forall i :: 0 <= i < |t| ==> !(0 < r[i].endTime < now)
    ensures forall i :: 0 <= i < |t| ==> r[i] == t[i] || r[i] == FreeSeat
  {
    seq(|t|, i requires 0 <= i < |t| => ExpireSeat(t[i], now))
  }

  /** `seatInvalidCheck` frees exactly the seats whose positive expiry is before `now`. */
  lemma SweepAllEffect(t: seq<Seat>, now: int)
    ensures forall i :: 0 <= i < |t| && 0 < t[i].endTime < now ==> SweepAll(t, now)[i] == FreeSeat
    ensures forall i :: 0 <= i < |t| && !(0 < t[i].endTime < now) ==> SweepAll(t, now)[i] == t[i]
    ensures forall i :: 0 <= i < |t| ==> !(0 < SweepAll(t, now)[i].endTime < now)
    ensures WellFormedTable(t) ==> WellFormedTable(SweepAll(t, now))
  {
  }

  method SeatInvalidCheck(seats: array<Seat>, now: int)
    modifies seats
    ensures seats[..] == SweepAll(old(seats[..]), now)
  {
    for i := 0 to seats.Length
      invariant forall j :: 0 <= j < i ==> seats[j] == ExpireSeat(old(seats[j]), now)
      invariant forall j :: i <= j < seats.Length ==> seats[j] == old(seats[j])
    {
      if seats[i].endTime < now && seats[i].endTime > 0 {
        CheckOut(seats, i);
      }
    }
  }

  // ---------------------------------------------------------- renewSeatEndTime

  function ClampSeat(s: Seat, c: Config, now: int, sod: int): Seat
    requires ValidWindow(c) && ValidSod(sod)
  {
    s.(endTime := ClampedEndTime(c, s.endTime, now, sod))
  }

  /**
   * The loop of `renewSeatEndTime` from index `i`, as written: a seat with
   * `endTime <= 0` is skipped by an extra `i++`, after which the NEXT seat is
   * clamped without its own check.
   */
  function ReconcileFrom(t: seq<Seat>, i: nat, c: Config, now: int, sod: int): (r: seq<Seat>)
    requires i <= |t|
    requires ValidWindow(c) && ValidSod(sod)
    ensures |r| == |t|
    ensures forall j :: 0 <= j < |t| ==> r[j].name == t[j].name
    ensures forall j :: 0 <= j < |t| ==> r[j].endTime <= t[j].endTime
    decreases |t| - i
  {
    if i == |t| then t
    else if t[i].endTime <= 0 then
      if i + 1 >= |t| then t
      else ReconcileFrom(t[i + 1 := ClampSeat(t[i + 1], c, now, sod)], i + 2, c, now, sod)
    else ReconcileFrom(t[i := ClampSeat(t[i], c, now, sod)], i + 1, c, now, sod)
  }

  /** `renewSeatEndTime`: nothing in 24-hour mode, the loop otherwise. */
  function Reconciled(t: seq<Seat>, c: Config, now: int, sod: int): (r: seq<Seat>)
    requires ValidWindow(c) && ValidSod(sod)
    ensures |r| == |t|
    // reconciliation only ever moves expiries earlier, never renames
    ensures forall j :: 0 <= j < |t| ==> r[j].name == t[j].name && r[j].endTime <= t[j].endTime
  {
    if AlwaysOpen(c) then t else ReconcileFrom(t, 0, c, now, sod)
  }

  /** The skip-then-clamp loop touches each seat at most once: it clamps it or leaves a non-positive one alone. */
  lemma {:induction false} ReconcileFromShape(t: seq<Seat>, i: nat, c: Config, now: int, sod: int)
    requires i <= |t|
    requires ValidWindow(c) && ValidSod(sod)
    ensures |ReconcileFrom(t, i, c, now, sod)| == |t|
    ensures forall j :: 0 <= j < i ==> ReconcileFrom(t, i, c, now, sod)[j] == t[j]
    ensures forall j :: i <= j < |t| ==>
              ReconcileFrom(t, i, c, now, sod)[j] == ClampSeat(t[j], c, now, sod)
              || (t[j].endTime <= 0 && ReconcileFrom(t, i, c, now, sod)[j] == t[j])
    decreases |t| - i
  {
    if i == |t| {
    } else if t[i].endTime <= 0 {
      if i + 1 < |t| {
        ReconcileFromShape(t[i + 1 := ClampSeat(t[i + 1], c, now, sod)], i + 2, c, now, sod);
      }
    } else {
      ReconcileFromShape(t[i := ClampSeat(t[i], c, now, sod)], i + 1, c, now, sod);
    }
  }

  /** The clamp `renewSeatEndTime` would apply if its skip were a plain `continue`. */
  function GuardedClamp(s: Seat, c: Config, now: int, sod: int): Seat
    requires ValidWindow(c) && ValidSod(sod)
  {
    if s.endTime <= 0 then s else ClampSeat(s, c, now, sod)
  }

  /**
   * What reconciliation does to the table. Names never change; an expiry not
   * past closing is untouched; afterwards no positive expiry is past closing.
   * Once the epoch is a day old the unguarded `i++` is harmless: the result is
   * the plain seat-by-seat clamp, free and disabled seats keep their value and
   * the encoding survives.
   */
  lemma ReconciledEffect(t: seq<Seat>, c: Config, now: int, sod: int)
    requires ValidWindow(c) && ValidSod(sod)
    ensures |Reconciled(t, c, now, sod)| == |t|
    ensures AlwaysOpen(c) ==> Reconciled(t, c, now, sod) == t
    ensures forall j :: 0 <= j < |t| ==> Reconciled(t, c, now, sod)[j].name == t[j].name
    ensures forall j :: 0 <= j < |t| && t[j].endTime <= now + LeftSeconds(c, sod) ==>
              Reconciled(t, c, now, sod)[j] == t[j]
    ensures !AlwaysOpen(c) ==> forall j :: 0 <= j < |t| && Reconciled(t, c, now, sod)[j].endTime > 0 ==>
              Reconciled(t, c, now, sod)[j].endTime <= now + LeftSeconds(c, sod)
    ensures now >= SecondsPerDay ==> forall j :: 0 <= j < |t| ==>
              Reconciled(t, c, now, sod)[j] == GuardedClamp(t[j], c, now, sod)
    ensures now >= SecondsPerDay && WellFormedTable(t) ==> WellFormedTable(Reconciled(t, c, now, sod))
  {
    if !AlwaysOpen(c) {
      ReconcileFromShape(t, 0, c, now, sod);
      var r := Reconciled(t, c, now, sod);
      if now >= SecondsPerDay {
        forall j | 0 <= j < |t|
          ensures r[j] == GuardedClamp(t[j], c, now, sod)
        {
          if t[j].endTime <= 0 {
            ClampedEndTimeKeepsNonPositive(c, t[j].endTime, now, sod);
          }
        }
        forall j | 0 <= j < |t| && t[j].endTime > 0
          ensures r[j].endTime > 0
        {
          ClampedEndTimePositive(c, t[j].endTime, now, sod);
        }
      }
    }
  }

  method RenewSeatEndTime(seats: array<Seat>, c: Config, now: int, sod: int)
    requires ValidWindow(c) && ValidSod(sod)
    modifies seats
    ensures seats[..] == Reconciled(old(seats[..]), c, now, sod)
  {
    if c.openTime == c.closeTime { return; }
    var i := 0;
    while i < seats.Length
      invariant 0 <= i <= seats.Length
      invariant ReconcileFrom(seats[..], i, c, now, sod) == Reconciled(old(seats[..]), c, now, sod)
      decreases seats.Length - i
    {
      if seats[i].endTime <= 0 {
        i := i + 1;
        if i >= seats.Length { return; }
      }
      seats[i] := seats[i].(endTime := ClampedEndTime(c, seats[i].endTime, now, sod));
      i := i + 1;
    }
  }

  // ------------------------------------------------------- findUser and isFull

  /** `findUser`: the first seat holding `name`, or -1 when no seat does. */
  method FindUser(name: string, seats: array<Seat>) returns (r: int)
    ensures -1 <= r < seats.Length
    ensures 0 <= r ==> seats[r].name == name && forall j :: 0 <= j < r ==> seats[j].name != name
    ensures r == -1 <==> forall j :: 0 <= j < seats.Length ==> seats[j].name != name
  {
    for i := 0 to seats.Length
      invariant forall j :: 0 <= j < i ==> seats[j].name != name
    {
      if seats[i].name == name {
        return i;
      }
    }
    return -1;
  }

  /** `isFull`: no seat is free; occupied and disabled seats both count as unavailable. */
  method IsFull(seats: array<Seat>) returns (full: bool)
    ensures full <==> forall j :: 0 <= j < seats.Length ==> seats[j].endTime != 0
    ensures WellFormedTable(seats[..]) ==>
              (full <==> forall j :: 0 <= j < seats.Length ==> StatusOf(seats[j]) != Free)
  {
    for i := 0 to seats.Length
      invariant forall j :: 0 <= j < i ==> seats[j].endTime != 0
    {
      if seats[i].endTime == 0 {
        return false;
      }
    }
    return true;
  }

  // --------------------------------------------------------- seat selection

  datatype Choice = AlreadyUsed | Unavailable | Available

  /** How `seatSelector` judges the seat a new user picks. */
  function SeatChoice(s: Seat): (r: Choice)
    ensures WellFormed(s) ==> (r == Available <==> StatusOf(s) == Free)
    ensures WellFormed(s) ==> (r == Unavailable <==> StatusOf(s) == Disabled)
  {
    if |s.name| != 0 then AlreadyUsed
    else if s.endTime == -1 then Unavailable
    else Available
  }
}
