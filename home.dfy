/** The page's own state: the loaded vehicles and bookings and the active
    category and search, with the merge of a saved booking. */
module HomePage {
  import opened Calendar
  import opened Bookings

  class Home {
    var vehicles: seq<Vehicle>
    var bookings: seq<Booking>
    var category: Category
    var searchTerm: string

    /** The page after both loads succeeded, with the bookings already
        normalised. */
    constructor (vehicles: seq<Vehicle>, bookings: seq<Booking>)
      ensures this.vehicles == vehicles && this.bookings == bookings
      ensures category == All && searchTerm == ""
    {
      this.vehicles := vehicles;
      this.bookings := bookings;
      category := All;
      searchTerm := "";
    }

    /** `bookingsOnSelectedDate`: what the day list is given for day `d`. */
    function BookingsOnDate(d: Day): (r: seq<Booking>)
      reads this
      ensures forall b :: b in r <==> b in bookings && Matches(b, vehicles, category, searchTerm) && b.Covers(d)
    {
      BookingsForDate(d, bookings, vehicles, category, searchTerm)
    }

    /** `Home.handleSave`: the saved record replaces every booking with its
        identifier, in place. */
    method HandleSave(updated: Booking)
      modifies this`bookings
      ensures bookings == ReplaceById(old(bookings), updated)
    {
      bookings := ReplaceById(bookings, updated);
    }
  }
}
