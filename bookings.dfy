/** Vehicles, bookings and the filter the page applies to them: the category
    tab and the name search, together with the vehicle lookup that drops
    orphaned bookings. */
module Bookings {
  import opened Wrappers
  import opened Text
  import opened Calendar

  datatype Vehicle = Vehicle(vehicleId: int, model: string, trim: string, vin: string)

  /** A booking as the page holds it after load: both dates are canonical
      days, `startDate` and `endDate` both inclusive. */
  datatype Booking = Booking(
    bookingId: int,
    vehicleId: int,
    name: string,
    email: string,
    phone: string,
    startDate: Day,
    endDate: Day)
  {
    /** The booking's inclusive range holds day `d`. */
    predicate Covers(d: Day)
    {
      NotAfter(startDate, d) && NotAfter(d, endDate)
    }
  }

  /** A booking that starts and ends on the same day holds that day only. */
  lemma SameDayBooking(b: Booking, x: Day)
    requires b.startDate == b.endDate
    ensures b.Covers(x) <==> x == b.startDate
  {
  }

  /** The category tabs; every tab but `All` names a trim token. */
  datatype Category = All | Xlt | Pro

  function Token(c: Category): string
  {
    match c
    case All => "ALL"
    case Xlt => "XLT"
    case Pro => "PRO"
  }

  /** `vehicles.find(v => v.vehicle_id === id)`: the first vehicle with that
      identifier, if any. */
  function FindVehicle(vehicles: seq<Vehicle>, id: int): (r: Option<Vehicle>)
    ensures r.None? <==> forall i :: 0 <= i < |vehicles| ==> vehicles[i].vehicleId != id
    ensures r.Some? ==> exists i :: 0 <= i < |vehicles| && vehicles[i] == r.value && r.value.vehicleId == id
                                   && forall j :: 0 <= j < i ==> vehicles[j].vehicleId != id
    decreases |vehicles|
  {
    if |vehicles| == 0 then None
    else if vehicles[0].vehicleId == id then Some(vehicles[0])
    else FindVehicle(vehicles[1..], id)
  }

  /** The booking filter shared by the calendar, the day list and the
      occupied-date computation. A booking is kept exactly when its vehicle
      exists, the vehicle's trim holds the category token (case-sensitively)
      unless the tab is `All`, and the lower-cased name holds the lower-cased
      search term unless that term is empty. */
  predicate Matches(b: Booking, vehicles: seq<Vehicle>, category: Category, searchTerm: string): (r: bool)
    ensures r <==>
      (exists i :: 0 <= i < |vehicles| && vehicles[i].vehicleId == b.vehicleId)
      && (category == All || HasSubstring(FindVehicle(vehicles, b.vehicleId).value.trim, Token(category)))
      && (searchTerm == [] || HasSubstring(ToLower(b.name), ToLower(searchTerm)))
  {
    match FindVehicle(vehicles, b.vehicleId)
    case None => false
    case Some(v) =>
      IncludesIsSubstring(v.trim, Token(category));
      IncludesIsSubstring(ToLower(b.name), ToLower(searchTerm));
      (category == All || Includes(v.trim, Token(category)))
      && (searchTerm == [] || Includes(ToLower(b.name), ToLower(searchTerm)))
  }

  /** `s` is `t` with some elements left out and the rest in order. */
  ghost predicate IsSubsequence<T>(s: seq<T>, t: seq<T>)
    decreases |t|
  {
    s == [] || (|t| > 0 && ((s[0] == t[0] && IsSubsequence(s[1..], t[1..])) || IsSubsequence(s, t[1..])))
  }

  /** `xs.filter(keep)`: the elements that pass, in their order, each as
      often as in `xs`. */
  function Filter<T(!new)>(xs: seq<T>, keep: T -> bool): (r: seq<T>)
    ensures IsSubsequence(r, xs)
    ensures forall x :: multiset(r)[x] == if keep(x) then multiset(xs)[x] else 0
    ensures forall x :: x in r <==> x in xs && keep(x)
    decreases |xs|
  {
    if |xs| == 0 then []
    else
      assert xs == [xs[0]] + xs[1..];
      var rest := Filter(xs[1..], keep);
      if keep(xs[0]) then [xs[0]] + rest else rest
  }

  /** Filtering again with a test that everything kept already passes
      changes nothing. */
  lemma {:induction false} FilterAgain<T(!new)>(xs: seq<T>, keep: T -> bool, again: T -> bool)
    requires forall x :: keep(x) ==> again(x)
    ensures Filter(Filter(xs, keep), again) == Filter(xs, keep)
    decreases |xs|
  {
    if |xs| > 0 {
      FilterAgain(xs[1..], keep, again);
      var rest := Filter(xs[1..], keep);
      if keep(xs[0]) {
        assert ([xs[0]] + rest)[1..] == rest;
      }
    }
  }

  /** The day list's filter: the bookings that pass, in their order, each
      as often as given. */
  function MatchingBookings(bookings: seq<Booking>, vehicles: seq<Vehicle>, category: Category, searchTerm: string): (r: seq<Booking>)
    ensures IsSubsequence(r, bookings)
    ensures forall b :: multiset(r)[b] == if Matches(b, vehicles, category, searchTerm) then multiset(bookings)[b] else 0
    ensures forall b :: b in r <==> b in bookings && Matches(b, vehicles, category, searchTerm)
  {
    Filter(bookings, b => Matches(b, vehicles, category, searchTerm))
  }

  /** `getBookingsForDate`: the bookings that pass the filter and whose range
      holds day `d`, in their original order. */
  function BookingsForDate(d: Day, bookings: seq<Booking>, vehicles: seq<Vehicle>, category: Category, searchTerm: string): (r: seq<Booking>)
    ensures IsSubsequence(r, bookings)
    ensures forall b :: multiset(r)[b] == if Matches(b, vehicles, category, searchTerm) && b.Covers(d) then multiset(bookings)[b] else 0
    ensures forall b :: b in r <==> b in bookings && Matches(b, vehicles, category, searchTerm) && b.Covers(d)
  {
    Filter(bookings, b => Matches(b, vehicles, category, searchTerm) && b.Covers(d))
  }

  /** The day list re-applies the filter to the bookings it is handed; for
      the list computed with the same filter that leaves it unchanged. */
  lemma DayListRefilter(d: Day, bookings: seq<Booking>, vehicles: seq<Vehicle>, category: Category, searchTerm: string)
    ensures MatchingBookings(BookingsForDate(d, bookings, vehicles, category, searchTerm), vehicles, category, searchTerm)
         == BookingsForDate(d, bookings, vehicles, category, searchTerm)
  {
    FilterAgain(bookings, b => Matches(b, vehicles, category, searchTerm) && b.Covers(d),
                b => Matches(b, vehicles, category, searchTerm));
  }

  /** `prev.map(b => b.booking_id === updated.booking_id ? updated : b)`. */
  function ReplaceById(bookings: seq<Booking>, updated: Booking): (r: seq<Booking>)
    ensures |r| == |bookings|
    ensures forall i :: 0 <= i < |r| ==>
      r[i] == if bookings[i].bookingId == updated.bookingId then updated else bookings[i]
    decreases |bookings|
  {
    if |bookings| == 0 then []
    else [if bookings[0].bookingId == updated.bookingId then updated else bookings[0]]
         + ReplaceById(bookings[1..], updated)
  }

  /** Saving the same record twice is the same as saving it once, and saving
      a record whose identifier is absent changes nothing. */
  lemma ReplaceByIdSettles(bookings: seq<Booking>, updated: Booking)
    ensures ReplaceById(ReplaceById(bookings, updated), updated) == ReplaceById(bookings, updated)
    ensures (forall i :: 0 <= i < |bookings| ==> bookings[i].bookingId != updated.bookingId)
            ==> ReplaceById(bookings, updated) == bookings
  {
  }
}
