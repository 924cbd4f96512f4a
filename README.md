# Library seat system: a Dafny model

`Library_Seat_System.c` runs the seat desk of a reading room. It keeps a
table of `SEATS` (10) seats. Each seat holds the occupant's name and an expiry
`endTime`:

- `endTime` is 0 for a free seat, -1 for a disabled seat, and the epoch second of expiry when positive.
- The name is `""` when nobody holds the seat.

The configuration `LibraryData` holds four values, all in minutes:

- the maximum session length;
- the renewal lead (how long before expiry renewal opens);
- the opening minute of the day;
- the closing minute of the day.

Equal opening and closing minutes mean 24-hour operation. A window whose
opening minute comes after its closing minute runs past midnight.

This project models what the program computes and how it changes its
state. The console is left out.

| module (file) | what it models |
|---|---|
| `Wrappers` (`wrappers.dfy`) | `Option` and `Result` |
| `LibraryConfig` (`config.dfy`) | the configuration, its defaults, and the validating edits of the administrator menu |
| `OperatingWindow` (`window.dfy`) | `isOperationTime` and `leftSeconds` |
| `SeatTime` (`seat_time.dfy`) | the expiry arithmetic of `setSeat`, `renewSeat`, `isRenewable` and the per-seat clamp of `renewSeatEndTime` |
| `SeatTable` (`seat_table.dfy`) | the seat array and the methods that rewrite or scan it |
| `Facility` (`facility.dfy`) | start-up, the per-interaction tick of `main`, and the opening and closing time edits |
| `ClockProjection` (`projection.dfy`) | the carry and borrow arithmetic of `printEndTime` and `printRenewTime` |
| `Findings` (`findings.dfy`) | two arithmetic defects, with corrected definitions |

How the model is built:

- **The clock is a parameter.** The program reads the clock itself. Here every operation takes the reading as inputs:
  - `now` is the epoch second;
  - `sod` is the second of the local day, with 0 ≤ sod < 86400.
- **The seat table is an `array<Seat>`.** Each in-place operation is a method. Its postcondition ties `seats[..]` to a function of `old(seats[..])`, and lemmas prove what the source promises about that function.
- **The source's encoding is kept.** `StatusOf` reads a seat as `Free`, `Occupied(name, expiry)` or `Disabled`, and `StatusRoundTrip` shows that the two views determine each other.
- **The source's behaviour is kept where it is surprising:**
  - The sweep frees a seat only when its expiry is strictly before `now`.
  - The skip in `renewSeatEndTime` steps past a free or disabled seat with an extra `i++`. It then clamps the next seat without checking it. `ReconcileFrom` does the same.
  - `findUser("")` finds the first free or disabled seat, as the source's `strcmp` does.
  - The two defects under "## Findings" are modelled as written. `Findings` holds the corrected definitions and their proofs.

## Model

| member | source | states |
|---|---|---|
| LibraryConfig.Default | Library_Seat_System.c:1216 | The start-up configuration is {240, 30, 1439, 1439}: 240 minutes per session, a 30-minute lead, and opening and closing both at minute 1439 (23:59). It is valid and in 24-hour mode. |
| LibraryConfig.SetMaxTime | Library_Seat_System.c:369-386 | Menu 2 accepts hours*60+minutes exactly when it lies in (0, 1440]. It stores that value and lowers the renewal lead to it when the lead is larger; the window is unchanged. A rejected entry yields `MaxTimeOutOfRange`. Validity is preserved. |
| LibraryConfig.SetMaxRenewableTime | Library_Seat_System.c:407-419 | Menu 3 accepts the lead exactly when it lies in [0, 1440] and is at most the session length. It changes only the lead and preserves validity. |
| LibraryConfig.SetOpenTime | Library_Seat_System.c:441-452 | Menu 4 accepts the opening minute exactly when it lies in [0, 1440). It changes only that field and preserves validity. |
| LibraryConfig.SetCloseTime | Library_Seat_System.c:473-484 | Menu 5 accepts the closing minute exactly when it lies in [0, 1440). It changes only that field and preserves validity. |
| LibraryConfig.ApplyEdit | Library_Seat_System.c:357-488 | Any single menu edit, accepted or rejected, leaves a valid configuration valid. |
| LibraryConfig.EditsKeepValid | Library_Seat_System.c:340-553 | A valid configuration stays valid under any sequence of administrator edits. |
| OperatingWindow.IsOperationTime | Library_Seat_System.c:1173-1202 | In 24-hour mode the facility always operates. In a same-day window it is closed iff sod < open*60 or sod ≥ close*60. In an overnight window it is closed iff close*60 ≤ sod < open*60. |
| OperatingWindow.LeftSeconds | Library_Seat_System.c:789-828 | In 24-hour mode the result is 86401. Otherwise it lies strictly between -86400 and 86400, and sod + result is a closing instant modulo one day. |
| OperatingWindow.IsOperationTimeIsCyclicWindow | Library_Seat_System.c:1173-1202 | Independent reading: the facility operates iff it is in 24-hour mode or the minute of the day lies in the cyclic interval [open, close). |
| OperatingWindow.LeftSecondsIsTimeToNextClose | Library_Seat_System.c:805-823 | While the facility operates outside 24-hour mode, the result is positive and equals the time to the next closing instant, (close*60 - sod) mod 86400. The one exception is the opening second of an overnight window. |
| OperatingWindow.AlwaysOpenNeverBinds | Library_Seat_System.c:805 | The 24-hour sentinel exceeds every session length a valid configuration allows. |
| SeatTime.AssignedEndTime | Library_Seat_System.c:846-860 | The assignment grant is the smaller of the session length and the time to closing. It equals one of the two and exceeds neither. |
| SeatTime.AssignedEndTimeAlwaysOpen | Library_Seat_System.c:846-860 | In 24-hour mode an assignment gets the full session length. |
| SeatTime.RenewedEndTime | Library_Seat_System.c:939-962 | A renewal gives either now + time to closing or expiry + session length, never more than either. It never moves an expiry earlier when that expiry is not past closing. |
| SeatTime.RenewAlwaysOpen | Library_Seat_System.c:949-958 | In 24-hour mode the 86401 sentinel can still bind on renewal. The extension is granted in full iff remaining + session length ≤ 86401, and otherwise the expiry becomes now + 86401. |
| SeatTime.RenewAfterAssignNotEarlier | Library_Seat_System.c:838-962 | Renewing right after an assignment never shortens the seat. |
| SeatTime.RenewKeepsOccupied | Library_Seat_System.c:949-958 | Once the epoch is a day old, renewing a positive expiry gives a positive expiry. |
| SeatTime.IsRenewable | Library_Seat_System.c:874-929 | Renewal is allowed iff the remaining time is within the lead and, outside 24-hour mode, strictly less than `leftSeconds`. Each of the three closing thresholds equals `leftSeconds`. |
| SeatTime.ClampedEndTime | Library_Seat_System.c:261-299 | The clamp never raises an expiry and, outside 24-hour mode, never leaves it after closing. An expiry not past closing is untouched. Except in the overnight branch after opening, the clamp is exactly min(expiry, now + time to closing). |
| SeatTime.ClampedEndTimePositive | Library_Seat_System.c:261-299 | Once the epoch is a day old, a positive expiry stays positive, so an occupied seat is never re-encoded as free or disabled. |
| SeatTime.ClampedEndTimeKeepsNonPositive | Library_Seat_System.c:254-299 | Once the epoch is a day old, a free or disabled seat reached by the unguarded `i++` keeps its value. |
| SeatTable.StatusRoundTrip | Library_Seat_System.c:21-22 | The integer encoding and the tagged status determine each other on well-formed seats. |
| SeatTable.ResetAll | Library_Seat_System.c:83-104 | After a reset nobody holds a seat: every name is empty and no expiry is positive. A seat keeps its value only when it was not occupied and this is not the first run. `ResetAllEffect` gives the per-status result. |
| SeatTable.ResetAllEffect | Library_Seat_System.c:83-104 | On the first run every seat becomes free. Later, disabled seats stay disabled and all others become free. The encoding is preserved. |
| SeatTable.ResetSeats | Library_Seat_System.c:83-104 | The array becomes `ResetAll` of its old contents; administrator option 1 (:353) and the tick use it. |
| SeatTable.CheckOut | Library_Seat_System.c:972-981 | Only the given seat changes, and it becomes `""`/0. |
| SeatTable.SetSeat | Library_Seat_System.c:838-864 | Only the given seat changes; it gets the name and the expiry `AssignedEndTime`. |
| SeatTable.AssignDuringOperation | Library_Seat_System.c:838-864 | During operating hours, a non-empty name gets an expiry strictly in the future and within one session length. The resulting seat is well formed and occupied. The exception is the opening second of an overnight window. |
| SeatTable.RenewSeat | Library_Seat_System.c:939-962 | Only the given seat's expiry changes, to `RenewedEndTime`; its name is kept. |
| SeatTable.RenewKeepsEncoding | Library_Seat_System.c:939-962 | Once the epoch is a day old, renewal keeps an occupied seat well formed, occupied, and held by the same name. |
| SeatTable.ToggleEffect | Library_Seat_System.c:529-539 | A free seat becomes disabled and a disabled seat becomes free. An occupied seat loses its occupant and becomes disabled. The encoding is preserved, and toggling twice restores a seat that was not occupied. |
| SeatTable.Toggle | Library_Seat_System.c:529-539 | For an encoded seat, the result is 0 or -1, and it is disabled exactly when the seat was not. An occupied seat loses its name; any other seat keeps it. `ToggleEffect` gives the status view. |
| SeatTable.ToggleSeat | Library_Seat_System.c:529-539 | Only the chosen seat changes, to `Toggle` of its old value. |
| SeatTable.SweepAllEffect | Library_Seat_System.c:1143-1163 | The sweep frees exactly the seats with 0 < expiry < now and leaves every other seat as it was. No expired seat remains, and the encoding is preserved. |
| SeatTable.SeatInvalidCheck | Library_Seat_System.c:1143-1163 | The array becomes `SweepAll` of its old contents. |
| SeatTable.SweepAll | Library_Seat_System.c:1143-1163 | After the sweep no positive expiry lies before `now`, and each seat is either kept or freed. `SweepAllEffect` says exactly which. |
| SeatTable.ReconcileFromShape | Library_Seat_System.c:251-302 | The skip-then-clamp loop keeps the table length and leaves seats before index i alone. From i on, each seat is either clamped or, if it has a non-positive value, left as it was. |
| SeatTable.ReconcileFrom | Library_Seat_System.c:251-302 | The loop of `renewSeatEndTime` from index i, with the skip-then-clamp step as written. It keeps the length and every name, and never moves an expiry later. `ReconcileFromShape` says which seats it clamps. |
| SeatTable.Reconciled | Library_Seat_System.c:236-305 | The whole of `renewSeatEndTime`: it keeps the length and every name and never moves an expiry later. `ReconciledEffect` gives the rest. |
| SeatTable.ReconciledEffect | Library_Seat_System.c:236-305 | In 24-hour mode nothing changes. Otherwise, after reconciliation: names never change; an expiry not past closing is untouched; and no positive expiry lies after closing. Once the epoch is a day old, the result is the guarded per-seat clamp and the encoding is preserved. |
| SeatTable.RenewSeatEndTime | Library_Seat_System.c:236-305 | The array becomes `Reconciled` of its old contents; the loop invariant carries the skip quirk. |
| SeatTable.FindUser | Library_Seat_System.c:739-754 | The result is the least index whose name equals the query, or -1 iff no seat holds that name. |
| SeatTable.IsFull | Library_Seat_System.c:764-779 | The table is full iff no seat has endTime 0, that is, no seat is free. Occupied and disabled seats both count as unavailable. |
| SeatTable.SeatChoice | Library_Seat_System.c:1046-1055 | `seatSelector` accepts a seat iff it is free and refuses it as unavailable iff it is disabled. |
| Facility.Init | Library_Seat_System.c:580-586 | Start-up builds a fresh table of 10 seats, all free. |
| Facility.TickEffect | Library_Seat_System.c:1234-1246 | A tick keeps the encoding and every disabled seat. Outside operating hours it leaves no seat occupied; during them it does only the sweep. |
| Facility.TickAll | Library_Seat_System.c:1234-1246 | After a tick no positive expiry lies before `now`. Outside operating hours nobody holds a seat. `TickEffect` gives the rest. |
| Facility.Tick | Library_Seat_System.c:1234-1246 | The array becomes `TickAll` of its old contents: the sweep, then the reset when the facility is outside operating hours. |
| Facility.EditOpenTime | Library_Seat_System.c:423-456 | A rejected opening time changes nothing. An accepted one is stored, and the table is reconciled against the new window. |
| Facility.EditCloseTime | Library_Seat_System.c:458-488 | The same for the closing time. |
| ClockProjection.TruncDiv | Library_Seat_System.c:131 | C's `/` for a positive divisor: quotient times divisor plus C's remainder gives back the dividend. The quotient is rounded toward zero, so q*b lies between 0 and the dividend for either sign. |
| ClockProjection.TruncRem | Library_Seat_System.c:133 | C's `%` for a positive divisor: the remainder is strictly between -b and b and takes the sign of the dividend. With `TruncDiv` it adds back to the dividend. |
| ClockProjection.TruncSplit | Library_Seat_System.c:616-618 | Proof step for `PrintRenewTime`: for any sign, C's split of the remaining seconds into hours, minutes and seconds adds back up. |
| ClockProjection.PrintEndTime | Library_Seat_System.c:114-178 | A seat without a name shows nothing. For a non-negative remaining time, the shown clock is in range and congruent to sod + remaining mod 86400. The next-day marker is set iff sod + remaining ≥ 86400, however many days ahead the expiry lies. Before the day after tomorrow, clock plus (next-day ? 86400 : 0) equals sod + remaining exactly. |
| ClockProjection.ClosingBlocksRenewal | Library_Seat_System.c:635-672 | The three closing tests of `printRenewTime` hold iff, outside 24-hour mode, the remaining time is at least `leftSeconds`. |
| ClockProjection.PrintRenewTime | Library_Seat_System.c:596-729 | 연장 불가 ("cannot renew") is shown iff, outside 24-hour mode, the remaining time reaches `leftSeconds`. Otherwise hour and minute are in range, and the clock is congruent mod 86400 to sod + remaining - lead*60. For a non-negative remaining time, the seconds are those of the expiry. If that time also ends before the day after tomorrow, the clock shows the deadline's time of day, with the next-day marker set iff the deadline falls tomorrow. |
| ClockProjection.NormalizeRenewClock | Library_Seat_System.c:676-714 | The carries reduce the seconds mod 60 and the minutes into range; the borrow loop terminates with minute and hour in range, and it never touches the seconds. The result differs from the input by whole days. For bounded input it is the input's time of day, with the marker set iff the input is at least a day ahead. |
| ClockProjection.RenewParts | Library_Seat_System.c:615-631 | Proof step for `PrintRenewTime`: the three starting sums add up to the deadline instant, and for bounded input they stay within the ranges the normalisation needs. |
| Findings.Overnight | Library_Seat_System.c:808 | A valid overnight window, 22:00 to 08:00. |
| Findings.LeftSecondsNegativeAtOpening | Library_Seat_System.c:810-813 | At 22:00 in that window the facility operates, but `leftSeconds` is -50400 and a new seat expires 50400 s in the past. |
| Findings.LeftSecondsFixed | Library_Seat_System.c:789-828 | With a strict test at :810, the result is positive and the exact time to the next closing whenever the facility operates outside 24-hour mode. |
| Findings.LeftSecondsFixedAgrees | Library_Seat_System.c:810 | The fixed and as-written versions differ exactly at the opening second of an overnight window. |
| Findings.ClampAtOpeningInPast | Library_Seat_System.c:278-286 | At 22:00 in that window the facility operates, yet the clamp moves a seat due in 100 s to 50400 s in the past. |
| Findings.ClampLandsInPast | Library_Seat_System.c:294-297 | At 23:00 in that window, a seat due in 40000 s is clamped to 54000 s in the past instead of to 08:00. |
| Findings.ClampedEndTimeFixed | Library_Seat_System.c:261-299 | The clamp with both corrections: a strict test at :278 and `+ 86400` at :297. Outside 24-hour mode it is exactly min(expiry, now + `LeftSecondsFixed`); in 24-hour mode it is the identity. |
| Findings.ClampedEndTimeFixedAtClosing | Library_Seat_System.c:261-299 | Whenever the facility operates outside 24-hour mode, the corrected clamp moves a seat due after closing to exactly closing time, which lies in the future. The opening second is included. |
| Findings.ClampedEndTimeDiffers | Library_Seat_System.c:276-298 | The as-written clamp differs from the corrected one exactly in an overnight window at or after the opening second, for a seat past the as-written `leftSeconds`. There it sets the seat to the corrected closing instant minus one day, which is before `now`. |

## Left out

- Console I/O: every `printf` and `scanf` is left out. So are the re-prompt loops of `adminMode`, `seatSelector` and `menuSelect`, and the text `printSeatInfo` builds. In their place the model keeps:
  - the decisions they make (`SetMaxTime` and the other validators, `SeatChoice`, `IsRenewable`);
  - the state updates (`Facility`, `SeatTable`);
  - the values they would print (`PrintEndTime`, `PrintRenewTime`).
- The `while (1)` loop of `main`: only one tick of it is modelled (`Facility.Tick`), because the loop itself only reads input.
- The existing-user menu of `seatSelector` (renew, check out or cancel): its choices are console input. The operations it calls are modelled.
- Clock access: `time(NULL)`, `localtime` and time zones are left out. `now` and `sod` are inputs, and each operation reads the clock once. In the source, `setSeat` and `leftSeconds` read it separately.
- C strings: names are `string` values, not 20-byte buffers. `strncpy` truncation and `scanf("%s")` overflow are not modelled.
- Machine integers: the model uses mathematical integers, so it does not capture these C narrowings:
  - `printEndTime` stores `endTime - now` in an `int` (:130);
  - `isRenewable` does the same (:886);
  - the sweep compares against `(int)Time` (:1155);
  - every administrator edit computes `tmpTime * 60` in an `int` (:370, :408, :442, :474).
  The `(int)Time` cast overflows in January 2038. The two differences overflow for a remaining time longer than about 68 years. The edit product overflows when the hour entry exceeds 35791394 in magnitude; in C that is undefined behaviour, and a wrapped value could fall inside the accepted range. `Entered` computes the product exactly, so the model rejects every such entry.
- ClockProjection.PrintEndTime: for an expiry two or more days ahead, the source prints an in-range clock and only the next-day marker, so the number of days is lost. The model states the time of day and the marker there, not the count of days. For a negative remaining time, C's truncating split can print negative fields, and the model promises nothing about them.

## Findings

| source | as written | input that shows it | evidently intended | confidence | as-written member | corrected member |
|---|---|---|---|---|---|---|
| Library_Seat_System.c:810 | `sod <= OPEN_TIME * 60` picks the after-midnight branch at the opening second of an overnight window. The same test appears at :278 (`renewSeatEndTime`, see `Findings.ClampAtOpeningInPast`), :648 (`printRenewTime`) and :902 (`isRenewable`); at that second, those two always report "cannot renew" | open 22:00, close 08:00, sod = 79200: `isOperationTime` is 1 but `leftSeconds` is -50400, so `setSeat` grants an expiry in the past | `sod < OPEN_TIME * 60`, giving 36000; the same at :278, :648 and :902 | not executed | Findings.LeftSecondsNegativeAtOpening | Findings.LeftSecondsFixed |
| Library_Seat_System.c:297 | the overnight after-opening clamp sets `now + CLOSE_TIME*60 - sod`, without the `+ 86400` its test at :294 uses | open 22:00, close 08:00, sod = 82800, endTime = now + 40000: the new endTime is now - 54000, so the next sweep evicts the occupant while the facility is open | `now + CLOSE_TIME*60 + 86400 - sod` (closing tomorrow); `Findings.ClampedEndTimeFixed` also corrects the :278 boundary | not executed | Findings.ClampLandsInPast | Findings.ClampedEndTimeFixed |
