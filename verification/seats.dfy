/** The per-seat record (`SeatUi`) of the library seating screen, the
    `"seat_<n>"` keys under which the screen stores seats, and the
    Occupy/Release button's effect on one record. */
module Seats {
  import opened Options
  import opened Decimal

  /** One seat. `occupiedSince` is a wall-clock time in milliseconds. */
  datatype Seat = Seat(
    seatNumber: int,
    isOccupied: bool,
    occupiedBy: Option<string>,
    occupiedSince: Option<int>,
    validUntil: Option<string>)

  const SeatPrefix: string := "seat_"

  /** Kotlin's `String.startsWith`. */
  predicate StartsWith(s: string, prefix: string) {
    |prefix| <= |s| && s[..|prefix|] == prefix
  }

  /** The map key `"seat_$n"` of seat n. */
  function SeatKey(n: int): string {
    SeatPrefix + IntToString(n)
  }

  /** Every seat key is `"seat_"` followed by at least one character. */
  lemma SeatKeyHasPrefix(n: int)
    ensures StartsWith(SeatKey(n), SeatPrefix)
    ensures |SeatKey(n)| > |SeatPrefix|
  {
    assert SeatKey(n)[..|SeatPrefix|] == SeatPrefix;
  }

  /** The seat number a key names, read back from its digits; 0 for a
      string that is not of the form `"seat_<integer>"`. */
  function KeyNumber(k: string): int {
    if StartsWith(k, SeatPrefix) && IsIntString(k[|SeatPrefix|..]) then ParseInt(k[|SeatPrefix|..])
    else 0
  }

  /** Reading the number back out of seat n's key gives n. */
  lemma KeyNumberOfSeatKey(n: int)
    ensures KeyNumber(SeatKey(n)) == n
  {
    assert SeatKey(n)[|SeatPrefix|..] == IntToString(n);
    ParseIntToString(n);
  }

  /** Two seat keys are equal exactly when their seat numbers are. */
  lemma SeatKeyInjective(a: int, b: int)
    ensures SeatKey(a) == SeatKey(b) <==> a == b
  {
    KeyNumberOfSeatKey(a);
    KeyNumberOfSeatKey(b);
  }

  /** A seat in the released state: no occupant, no times. */
  predicate Available(s: Seat) {
    && !s.isOccupied
    && s.occupiedBy == None
    && s.occupiedSince == None
    && s.validUntil == None
  }

  /** The occupancy flag agrees with the presence of the occupant data:
      either everything is null, or the seat is occupied and all three
      of occupant, start time and validity are present. */
  predicate Consistent(s: Seat) {
    || Available(s)
    || (s.isOccupied && s.occupiedBy.Some? && s.occupiedSince.Some? && s.validUntil.Some?)
  }

  /** `SeatUi(seatNumber = n, isOccupied = false)` with the defaulted fields. */
  function NewSeat(n: int): (s: Seat)
    ensures s.seatNumber == n
    ensures Available(s)
  {
    Seat(n, false, None, None, None)
  }

  /** The Occupy/Release button on one seat: occupying takes the form's
      name and validity and the current time; releasing clears them. */
  function ToggleSeat(s: Seat, name: string, validUntil: string, now: int): (r: Seat)
    ensures r.seatNumber == s.seatNumber
    ensures r.isOccupied == !s.isOccupied
    ensures Consistent(r)
    ensures !s.isOccupied ==>
      r.occupiedBy == Some(name) && r.occupiedSince == Some(now) && r.validUntil == Some(validUntil)
    ensures s.isOccupied ==> r == NewSeat(s.seatNumber)
  {
    s.(isOccupied := !s.isOccupied,
       occupiedBy := if !s.isOccupied then Some(name) else None,
       occupiedSince := if !s.isOccupied then Some(now) else None,
       validUntil := if !s.isOccupied then Some(validUntil) else None)
  }

  /** Occupying an available seat and then releasing it gives back the
      seat exactly as it was, whatever was typed at either press. */
  lemma ReleaseUndoesOccupy(s: Seat, name: string, validUntil: string, now: int,
                            name': string, validUntil': string, now': int)
    requires Available(s)
    ensures ToggleSeat(ToggleSeat(s, name, validUntil, now), name', validUntil', now') == s
  {
  }

  /** Releasing and re-occupying an occupied seat records the data given at
      the second press, so the round trip returns the seat only when that
      data is what was recorded. */
  lemma OccupyAfterRelease(s: Seat, name: string, validUntil: string, now: int,
                           name': string, validUntil': string, now': int)
    requires s.isOccupied
    ensures var r := ToggleSeat(ToggleSeat(s, name, validUntil, now), name', validUntil', now');
      r.isOccupied && r.seatNumber == s.seatNumber
      && (r == s <==> s.occupiedBy == Some(name') && s.occupiedSince == Some(now') && s.validUntil == Some(validUntil'))
  {
  }
}
