/** The occupied-date sets: every day of every relevant booking, keyed by its
    "YYYY-MM-DD" string. The calendar view restricts them to one year and
    filters the bookings; the edit view takes every other booking of the
    vehicle under edit. */
module Occupancy {
  import opened Wrappers
  import opened Text
  import opened Calendar
  import opened Bookings

  /** Day `x` passes the optional year restriction. */
  predicate InYear(x: Day, year: Option<nat>)
  {
    year.None? || x.year == year.value
  }

  /** Day `x` is in the year and in the span from `from` up to, but not
      including, `below`. */
  ghost predicate Taken(x: Day, from: Date, below: Date, year: Option<nat>)
  {
    InYear(x, year) && NotAfter(from, x) && Before(x, below)
  }

  /** `r` holds exactly the keys of `acc` and the keys of the taken days. */
  ghost predicate KeysExactly(r: set<string>, acc: set<string>, from: Date, below: Date, year: Option<nat>)
  {
    (forall x: Day :: Key(x) in r <==> Key(x) in acc || Taken(x, from, below, year))
    && (forall s :: s in r ==> s in acc || exists x: Day :: s == Key(x) && Taken(x, from, below, year))
  }

  /** Adding the current day (when it is in the year) extends the span by
      one day. */
  lemma AddDayStep(r: set<string>, acc: set<string>, from: Date, current: Day, year: Option<nat>)
    requires KeysExactly(r, acc, from, current, year) && NotAfter(from, current)
    ensures KeysExactly(if InYear(current, year) then r + {Key(current)} else r, acc, from, Next(current), year)
  {
    KeyInjective();
    forall x: Day
      ensures Taken(x, from, Next(current), year) <==> Taken(x, from, current, year) || (x == current && InYear(current, year))
    {
      NextIsSuccessor(current, x);
    }
    var r' := if InYear(current, year) then r + {Key(current)} else r;
    forall s | s in r'
      ensures s in acc || exists x: Day :: s == Key(x) && Taken(x, from, Next(current), year)
    {
      if s in r {
        if s !in acc {
          var x: Day :| s == Key(x) && Taken(x, from, current, year);
          assert Taken(x, from, Next(current), year);
        }
      } else {
        assert s == Key(current) && Taken(current, from, Next(current), year);
      }
    }
  }

  /** The walk `while (current <= end) { ...; current.setDate(+1) }` over one
      booking's range, adding the key of every day that is in the year. */
  method AddDays(acc: set<string>, from: Day, to: Day, year: Option<nat>) returns (r: set<string>)
    ensures forall x: Day :: Key(x) in r <==> Key(x) in acc || (InYear(x, year) && NotAfter(from, x) && NotAfter(x, to))
    ensures forall s :: s in r ==> s in acc || exists x: Day :: s == Key(x) && InYear(x, year) && NotAfter(from, x) && NotAfter(x, to)
  {
    r := acc;
    var current: Date := from;
    while NotAfter(current, to)
      invariant IsCalendarDate(current) && NotAfter(from, current)
      invariant NotAfter(from, to) ==> NotAfter(current, Next(to))
      invariant !NotAfter(from, to) ==> current == from
      invariant KeysExactly(r, acc, from, current, year)
      decreases Rank(to) - Rank(current)
    {
      var day: Day := current;
      AddDayStep(r, acc, from, day, year);
      if InYear(day, year) {
        r := r + {Key(day)};
      }
      NextIsSuccessor(current, to);
      NextIsSuccessor(current, Next(to));
      RankMonotone(current, Next(current));
      current := Next(current);
    }
    AddDaysDone(r, acc, from, to, current, year);
  }

  /** Once the walk has passed `to`, the taken days are exactly the days of
      the closed range that are in the year. */
  lemma AddDaysDone(r: set<string>, acc: set<string>, from: Day, to: Day, current: Date, year: Option<nat>)
    requires IsCalendarDate(current) && NotAfter(from, current) && !NotAfter(current, to)
    requires NotAfter(from, to) ==> NotAfter(current, Next(to))
    requires !NotAfter(from, to) ==> current == from
    requires KeysExactly(r, acc, from, current, year)
    ensures forall x: Day :: Key(x) in r <==> Key(x) in acc || (InYear(x, year) && NotAfter(from, x) && NotAfter(x, to))
    ensures forall s :: s in r ==> s in acc || exists x: Day :: s == Key(x) && InYear(x, year) && NotAfter(from, x) && NotAfter(x, to)
  {
    NextIsSuccessor(to, current);
    assert NotAfter(from, to) ==> current == Next(to);
    forall x: Day
      ensures Taken(x, from, current, year) <==> InYear(x, year) && NotAfter(from, x) && NotAfter(x, to)
    {
      NextIsSuccessor(to, x);
    }
  }

  /** Day `x` lies in the given year and in the range of a booking that
      passes the filter. */
  ghost predicate OccupiedInYear(x: Day, year: nat, bookings: seq<Booking>, vehicles: seq<Vehicle>,
                                 category: Category, searchTerm: string)
  {
    x.year == year
    && exists b :: b in bookings && Matches(b, vehicles, category, searchTerm) && b.Covers(x)
  }

  /** One more booking adds exactly its own in-year days, when it passes the
      filter. */
  lemma OccupiedInYearStep(x: Day, year: nat, bookings: seq<Booking>, b: Booking, vehicles: seq<Vehicle>,
                           category: Category, searchTerm: string)
    ensures OccupiedInYear(x, year, bookings + [b], vehicles, category, searchTerm)
        <==> OccupiedInYear(x, year, bookings, vehicles, category, searchTerm)
             || (x.year == year && Matches(b, vehicles, category, searchTerm) && b.Covers(x))
  {
    if OccupiedInYear(x, year, bookings + [b], vehicles, category, searchTerm) {
      var c :| c in bookings + [b] && Matches(c, vehicles, category, searchTerm) && c.Covers(x);
      assert c in bookings || c == b;
    }
  }

  /** `getAllBookedDates`: the keys of the occupied days of one year. */
  method AllBookedDates(year: nat, bookings: seq<Booking>, vehicles: seq<Vehicle>,
                        category: Category, searchTerm: string) returns (r: set<string>)
    ensures forall x: Day :: Key(x) in r <==> OccupiedInYear(x, year, bookings, vehicles, category, searchTerm)
    ensures forall s :: s in r ==> exists x: Day :: s == Key(x) && OccupiedInYear(x, year, bookings, vehicles, category, searchTerm)
  {
    r := {};
    for k := 0 to |bookings|
      invariant forall x: Day :: Key(x) in r <==> OccupiedInYear(x, year, bookings[..k], vehicles, category, searchTerm)
      invariant forall s :: s in r ==> exists x: Day :: s == Key(x) && OccupiedInYear(x, year, bookings[..k], vehicles, category, searchTerm)
    {
      var b := bookings[k];
      assert bookings[..k + 1] == bookings[..k] + [b];
      forall x: Day
        ensures OccupiedInYear(x, year, bookings[..k + 1], vehicles, category, searchTerm)
            <==> OccupiedInYear(x, year, bookings[..k], vehicles, category, searchTerm)
                 || (x.year == year && Matches(b, vehicles, category, searchTerm) && b.Covers(x))
      {
        OccupiedInYearStep(x, year, bookings[..k], b, vehicles, category, searchTerm);
      }
      if Matches(b, vehicles, category, searchTerm) {
        r := AddDays(r, b.startDate, b.endDate, Some(year));
      }
    }
    assert bookings[..|bookings|] == bookings;
  }

  /** Day `x` lies in the range of another booking of the same vehicle. */
  ghost predicate OccupiedForEdit(x: Day, bookings: seq<Booking>, vehicleId: int, bookingId: int)
  {
    exists b :: b in bookings && b.vehicleId == vehicleId && b.bookingId != bookingId && b.Covers(x)
  }

  /** The edit view's `bookedDates`: the keys of every day taken by another
      booking of the vehicle under edit, in any year. */
  method EditBookedDates(bookings: seq<Booking>, vehicle: Vehicle, booking: Booking) returns (r: set<string>)
    ensures forall x: Day :: Key(x) in r <==> OccupiedForEdit(x, bookings, vehicle.vehicleId, booking.bookingId)
    ensures forall s :: s in r ==> exists x: Day :: s == Key(x) && OccupiedForEdit(x, bookings, vehicle.vehicleId, booking.bookingId)
  {
    r := {};
    for k := 0 to |bookings|
      invariant forall x: Day :: Key(x) in r <==> OccupiedForEdit(x, bookings[..k], vehicle.vehicleId, booking.bookingId)
      invariant forall s :: s in r ==> exists x: Day :: s == Key(x) && OccupiedForEdit(x, bookings[..k], vehicle.vehicleId, booking.bookingId)
    {
      var b := bookings[k];
      assert bookings[..k + 1] == bookings[..k] + [b];
      if b.vehicleId == vehicle.vehicleId && b.bookingId != booking.bookingId {
        r := AddDays(r, b.startDate, b.endDate, None);
      }
    }
    assert bookings[..|bookings|] == bookings;
  }

  /** The year view does not depend on the order of the bookings. */
  lemma OccupiedInYearReorder(x: Day, year: nat, b1: seq<Booking>, b2: seq<Booking>, vehicles: seq<Vehicle>,
                              category: Category, searchTerm: string)
    requires multiset(b1) == multiset(b2)
    ensures OccupiedInYear(x, year, b1, vehicles, category, searchTerm) <==> OccupiedInYear(x, year, b2, vehicles, category, searchTerm)
  {
    forall b
      ensures b in b1 <==> b in b2
    {
      assert b in b1 <==> b in multiset(b1);
      assert b in b2 <==> b in multiset(b2);
    }
  }

  /** A day of the edited booking's own range counts as occupied in the edit
      view only when a different booking of the same vehicle also holds it;
      dropping the exclusion adds back exactly the edited booking's days. */
  lemma EditExclusion(x: Day, bookings: seq<Booking>, booking: Booking)
    requires booking in bookings
    requires forall b :: b in bookings && b.bookingId == booking.bookingId ==> b == booking
    ensures (exists b :: b in bookings && b.vehicleId == booking.vehicleId && b.Covers(x))
        <==> OccupiedForEdit(x, bookings, booking.vehicleId, booking.bookingId) || booking.Covers(x)
  {
  }
}
