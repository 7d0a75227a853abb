/** The seat state machine of the main screen, lifted out of its UI
    callbacks: the seat map keyed by `"seat_<n>"`, the selected seat, and
    the two form fields. Every callback becomes a pure function of the
    state and of what the framework would supply (touch action, hit node
    name, current time, typed text). */
module Screen {
  import opened Options
  import opened Seats

  /** The number of seats the screen creates. */
  const SeatCount: nat := 57

  /** `MotionEvent.ACTION_UP`. */
  const ActionUp: int := 1

  datatype State = State(
    seats: map<string, Seat>,
    selected: Option<Seat>,
    name: string,
    validUntil: string)

  /** The keys `"seat_1"` .. `"seat_<n>"`. */
  function KeysUpTo(n: nat): set<string> {
    set i | 1 <= i <= n :: SeatKey(i)
  }

  /** The seat map holding available seats 1..n, each under its own key:
      the result of the first n iterations of the initialising loop. */
  function SeatsUpTo(n: nat): (m: map<string, Seat>)
    ensures m.Keys == KeysUpTo(n)
    ensures |m| == n
    ensures forall i | 1 <= i <= n :: SeatKey(i) in m && m[SeatKey(i)] == NewSeat(i)
  {
    KeysUpToCount(n);
    SeatKeysNumbered(n);
    map k | k in KeysUpTo(n) :: NewSeat(KeyNumber(k))
  }

  lemma SeatKeysNumbered(n: nat)
    ensures forall i | 1 <= i <= n :: SeatKey(i) in KeysUpTo(n) && KeyNumber(SeatKey(i)) == i
  {
    forall i | 1 <= i <= n
      ensures SeatKey(i) in KeysUpTo(n) && KeyNumber(SeatKey(i)) == i
    {
      KeyNumberOfSeatKey(i);
    }
  }

  /** There are exactly n keys among the first n seats. */
  lemma {:induction false} KeysUpToCount(n: nat)
    ensures |KeysUpTo(n)| == n
  {
    if n > 0 {
      var prev, key := KeysUpTo(n - 1), SeatKey(n);
      KeyOutsideEarlierKeys(n);
      KeysUpToCount(n - 1);
      assert |prev + {key}| == |prev| + 1;
    }
  }

  /** Seat i is among the first n exactly when 1 <= i <= n. */
  lemma KeysUpToMembership(n: nat, i: int)
    ensures SeatKey(i) in KeysUpTo(n) <==> 1 <= i <= n
  {
    if SeatKey(i) in KeysUpTo(n) {
      var j :| 1 <= j <= n && SeatKey(i) == SeatKey(j);
      SeatKeyInjective(i, j);
    }
  }

  /** Every record of the initial map sits under its own key and is available. */
  lemma SeatsUpToWellFormed(n: nat)
    ensures forall k | k in SeatsUpTo(n) ::
      SeatKey(SeatsUpTo(n)[k].seatNumber) == k && Available(SeatsUpTo(n)[k])
  {
    var m := SeatsUpTo(n);
    forall k | k in m
      ensures SeatKey(m[k].seatNumber) == k && Available(m[k])
    {
      var i :| 1 <= i <= n && k == SeatKey(i);
    }
  }

  /** Key n is new to the first n - 1 keys, and adding it gives the first n. */
  lemma KeyOutsideEarlierKeys(n: nat)
    requires n >= 1
    ensures SeatKey(n) !in KeysUpTo(n - 1)
    ensures KeysUpTo(n) == KeysUpTo(n - 1) + {SeatKey(n)}
  {
    var prev, next := KeysUpTo(n - 1), KeysUpTo(n);
    if SeatKey(n) in prev {
      var i :| 1 <= i <= n - 1 && SeatKey(n) == SeatKey(i);
      SeatKeyInjective(i, n);
    }
    forall k | k in next
      ensures k in prev + {SeatKey(n)}
    {
      var i :| 1 <= i <= n && k == SeatKey(i);
      if i < n {
        assert k in prev;
      }
    }
    forall k | k in prev
      ensures k in next
    {
      var i :| 1 <= i <= n - 1 && k == SeatKey(i);
    }
  }

  /** A map holding available seats 1..n under their keys, and nothing else. */
  predicate HoldsSeatsUpTo(m: map<string, Seat>, n: nat) {
    && m.Keys == KeysUpTo(n)
    && forall i | 1 <= i <= n :: SeatKey(i) in m && m[SeatKey(i)] == NewSeat(i)
  }

  /** Only one map holds seats 1..n under their keys and nothing else. */
  lemma HoldsSeatsUpToUnique(m1: map<string, Seat>, m2: map<string, Seat>, n: nat)
    requires HoldsSeatsUpTo(m1, n) && HoldsSeatsUpTo(m2, n)
    ensures m1 == m2
  {
    forall k | k in m1
      ensures m1[k] == m2[k]
    {
      var i :| 1 <= i <= n && k == SeatKey(i);
    }
  }

  /** The initialising loop `for (i in 1..57) seatData["seat_$i"] = SeatUi(i, false)`,
      run on the empty map. */
  method InitSeats() returns (m: map<string, Seat>)
    ensures m == SeatsUpTo(SeatCount)
  {
    m := map[];
    var i := 1;
    while i <= SeatCount
      invariant 1 <= i <= SeatCount + 1
      invariant HoldsSeatsUpTo(m, i - 1)
    {
      KeyOutsideEarlierKeys(i);
      m := m[SeatKey(i) := NewSeat(i)];
      i := i + 1;
    }
    HoldsSeatsUpToUnique(m, SeatsUpTo(SeatCount), SeatCount);
  }

  /** Well-formedness of every state the screen can reach:
      the keys are exactly `"seat_1"` .. `"seat_57"`; each key names the
      record it holds; each record's occupancy data agrees with its flag;
      and the selected seat, if any, is the record stored under its key. */
  predicate Inv(s: State) {
    && s.seats.Keys == KeysUpTo(SeatCount)
    && (forall k | k in s.seats :: SeatKey(s.seats[k].seatNumber) == k)
    && (forall k | k in s.seats :: Consistent(s.seats[k]))
    && (s.selected.Some? ==>
          var k := SeatKey(s.selected.value.seatNumber);
          k in s.seats && s.seats[k] == s.selected.value)
  }

  /** The screen's first state: 57 available seats, none selected, empty form. */
  function Init(): (s: State)
    ensures Inv(s)
    ensures s.seats.Keys == KeysUpTo(SeatCount) && |s.seats| == SeatCount
    ensures forall i | 1 <= i <= SeatCount :: SeatKey(i) in s.seats && s.seats[SeatKey(i)].seatNumber == i
    ensures forall k | k in s.seats :: Available(s.seats[k])
    ensures s.selected == None && s.name == "" && s.validUntil == ""
  {
    SeatsUpToWellFormed(SeatCount);
    State(SeatsUpTo(SeatCount), None, "", "")
  }

  /** Under the invariant a stored seat's number lies in 1..57. */
  lemma StoredNumberInRange(s: State, k: string)
    requires Inv(s)
    requires k in s.seats
    ensures 1 <= s.seats[k].seatNumber <= SeatCount
  {
    KeysUpToMembership(SeatCount, s.seats[k].seatNumber);
  }

  /** The touch callback: on a finger lift over a node whose name starts
      with `"seat_"` and is a key of the map, select that seat and load the
      form from it; otherwise nothing changes. `hit` is the name of the
      model node under the finger, None when there is none. */
  function Select(s: State, action: int, hit: Option<string>): (r: State)
    ensures r.seats == s.seats
    ensures r != s ==> action == ActionUp && hit.Some? && StartsWith(hit.value, SeatPrefix) && hit.value in s.seats
    ensures action == ActionUp && hit.Some? && StartsWith(hit.value, SeatPrefix) && hit.value in s.seats ==>
      var seat := s.seats[hit.value];
      && r.selected == Some(seat)
      && r.name == seat.occupiedBy.GetOr("")
      && r.validUntil == seat.validUntil.GetOr("")
  {
    if action == ActionUp && hit.Some? && StartsWith(hit.value, SeatPrefix) then
      var key := hit.value;
      if key in s.seats then
        var seat := s.seats[key];
        State(s.seats, Some(seat), seat.occupiedBy.GetOr(""), seat.validUntil.GetOr(""))
      else s
    else s
  }

  /** The text fields' `onValueChange`. */
  function EditName(s: State, text: string): (r: State)
    ensures r.name == text
    ensures r.seats == s.seats && r.selected == s.selected && r.validUntil == s.validUntil
  {
    s.(name := text)
  }

  function EditValidUntil(s: State, text: string): (r: State)
    ensures r.validUntil == text
    ensures r.seats == s.seats && r.selected == s.selected && r.name == s.name
  {
    s.(validUntil := text)
  }

  /** The Occupy/Release button, which only exists while a seat is
      selected: flip the selected seat, write it back under
      `"seat_<seatNumber>"` and make it the selection. */
  function Toggle(s: State, now: int): (r: State)
    ensures s.selected.None? ==> r == s
    ensures s.selected.Some? ==>
      var seat := s.selected.value;
      var k := SeatKey(seat.seatNumber);
      && r.seats.Keys == s.seats.Keys + {k}
      && (forall k' | k' in s.seats && k' != k :: r.seats[k'] == s.seats[k'])
      && r.selected == Some(r.seats[k])
      && r.seats[k].seatNumber == seat.seatNumber
      && r.seats[k].isOccupied == !seat.isOccupied
      && (!seat.isOccupied ==>
            && r.seats[k].occupiedBy == Some(s.name)
            && r.seats[k].occupiedSince == Some(now)
            && r.seats[k].validUntil == Some(s.validUntil))
      && (seat.isOccupied ==> Available(r.seats[k]))
      && r.name == s.name && r.validUntil == s.validUntil
  {
    match s.selected
    case None => s
    case Some(seat) =>
      var updated := ToggleSeat(seat, s.name, s.validUntil, now);
      s.(seats := s.seats[SeatKey(seat.seatNumber) := updated], selected := Some(updated))
  }

  /** Everything that can happen to the screen. The text fields are only
      composed while a seat is selected, but typing is accepted in any
      state here: a superset of the source's event sequences, so what is
      proved for every run holds for the source's runs too. */
  datatype Event =
    | Touch(action: int, hit: Option<string>)
    | Press(now: int)
    | TypeName(text: string)
    | TypeValidUntil(text: string)

  function Step(s: State, e: Event): State {
    match e
    case Touch(action, hit) => Select(s, action, hit)
    case Press(now) => Toggle(s, now)
    case TypeName(text) => EditName(s, text)
    case TypeValidUntil(text) => EditValidUntil(s, text)
  }

  function Run(s: State, es: seq<Event>): State
    decreases |es|
  {
    if |es| == 0 then s else Run(Step(s, es[0]), es[1..])
  }

  /** Toggling keeps the key set and writes back to the key the selection
      came from, so every other seat is untouched. */
  lemma ToggleKeepsInv(s: State, now: int)
    requires Inv(s)
    ensures Inv(Toggle(s, now))
    ensures Toggle(s, now).seats.Keys == s.seats.Keys
  {
    if s.selected.Some? {
      var r := Toggle(s, now);
      var k := SeatKey(s.selected.value.seatNumber);
      forall k' | k' in r.seats
        ensures SeatKey(r.seats[k'].seatNumber) == k' && Consistent(r.seats[k'])
      {
        if k' != k {
          assert r.seats[k'] == s.seats[k'];
        }
      }
    }
  }

  /** Selecting takes the selection from the map itself, so it stays in sync. */
  lemma SelectKeepsInv(s: State, action: int, hit: Option<string>)
    requires Inv(s)
    ensures Inv(Select(s, action, hit))
  {
    var r := Select(s, action, hit);
    if r != s {
      var seat := s.seats[hit.value];
      assert r.selected == Some(seat);
      assert SeatKey(seat.seatNumber) == hit.value;
    }
  }

  lemma StepKeepsInv(s: State, e: Event)
    requires Inv(s)
    ensures Inv(Step(s, e))
  {
    match e
    case Touch(action, hit) => SelectKeepsInv(s, action, hit);
    case Press(now) => ToggleKeepsInv(s, now);
    case TypeName(text) => assert Step(s, e).seats == s.seats;
    case TypeValidUntil(text) => assert Step(s, e).seats == s.seats;
  }

  /** Every sequence of events keeps the invariant. */
  lemma {:induction false} RunKeepsInv(s: State, es: seq<Event>)
    requires Inv(s)
    ensures Inv(Run(s, es))
    decreases |es|
  {
    if |es| > 0 {
      StepKeepsInv(s, es[0]);
      RunKeepsInv(Step(s, es[0]), es[1..]);
    }
  }

  /** Every state reachable from the first one is well formed. */
  lemma ReachableInv(es: seq<Event>)
    ensures Inv(Run(Init(), es))
  {
    RunKeepsInv(Init(), es);
  }

  /** A well-formed state holds exactly the 57 seats, seat i under `"seat_i"`. */
  lemma InvHoldsAllSeats(s: State)
    requires Inv(s)
    ensures |s.seats| == SeatCount
    ensures forall i | 1 <= i <= SeatCount :: SeatKey(i) in s.seats && s.seats[SeatKey(i)].seatNumber == i
  {
    KeysUpToCount(SeatCount);
    forall i | 1 <= i <= SeatCount
      ensures SeatKey(i) in s.seats && s.seats[SeatKey(i)].seatNumber == i
    {
      KeysUpToMembership(SeatCount, i);
      SeatKeyInjective(i, s.seats[SeatKey(i)].seatNumber);
    }
  }

  /** A lift over the node named `"seat_<n>"` selects seat n when n is one of
      the 57 and does nothing otherwise; so nodes numbered above 57 can
      never be selected. */
  lemma SelectByNumber(s: State, n: int)
    requires Inv(s)
    ensures var r := Select(s, ActionUp, Some(SeatKey(n)));
      && (1 <= n <= SeatCount ==> r.selected.Some? && r.selected.value.seatNumber == n)
      && (!(1 <= n <= SeatCount) ==> r == s)
  {
    var k := SeatKey(n);
    KeysUpToMembership(SeatCount, n);
    if 1 <= n <= SeatCount {
      SeatKeyHasPrefix(n);
      SeatKeyInjective(n, s.seats[k].seatNumber);
      assert Select(s, ActionUp, Some(k)).selected == Some(s.seats[k]);
    } else {
      assert k !in s.seats;
    }
  }

  /** Selection by map membership alone, without the `"seat_"` prefix test. */
  function SelectByKey(s: State, action: int, hit: Option<string>): State {
    if action == ActionUp && hit.Some? && hit.value in s.seats then
      var seat := s.seats[hit.value];
      State(s.seats, Some(seat), seat.occupiedBy.GetOr(""), seat.validUntil.GetOr(""))
    else s
  }

  /** Every key of a well-formed map starts with `"seat_"`. */
  lemma KeysCarryPrefix(s: State)
    requires Inv(s)
    ensures forall k | k in s.seats :: StartsWith(k, SeatPrefix)
  {
    forall k | k in s.seats
      ensures StartsWith(k, SeatPrefix)
    {
      SeatKeyHasPrefix(s.seats[k].seatNumber);
    }
  }

  /** When every key starts with `"seat_"`, as in every well-formed state,
      the prefix test in the touch callback never decides anything. */
  lemma PrefixTestRedundant(s: State, action: int, hit: Option<string>)
    requires forall k | k in s.seats :: StartsWith(k, SeatPrefix)
    ensures Select(s, action, hit) == SelectByKey(s, action, hit)
  {
  }

  /** Occupying the selected seat and pressing again releases it and gives
      back the state before the first press. */
  lemma OccupyThenRelease(s: State, now: int, now': int)
    requires Inv(s)
    requires s.selected.Some? && !s.selected.value.isOccupied
    ensures Toggle(Toggle(s, now), now') == s
  {
    var seat := s.selected.value;
    var k := SeatKey(seat.seatNumber);
    var t := Toggle(s, now);
    var t' := Toggle(t, now');
    assert Available(seat);
    ReleaseUndoesOccupy(seat, s.name, s.validUntil, now, s.name, s.validUntil, now');
    assert t'.selected == Some(seat);
    assert t'.seats == s.seats;
  }
}
