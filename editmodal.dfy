/** The edit view of one booking: its form, its date selection and its error
    message, the click handler that drives the range selector, and the save
    step up to the record it would send. */
module EditModal {
  import opened Wrappers
  import opened Text
  import opened Calendar
  import opened Bookings
  import opened Occupancy
  import opened RangeSelection

  /** The three text inputs of the edit form. */
  datatype Form = Form(name: string, email: string, phone: string)

  datatype Field = Name | Email | Phone

  const FillInMessage := "Please fill in all fields."
  const SelectDatesMessage := "Please select a start and end date."
  const RangeMessage := "Selected range includes booked dates."

  /** `a < b ? [a, b] : [b, a]` on the days' keys: the pair in
      chronological order. */
  function InOrder(a: Day, b: Day): (r: (Day, Day))
    ensures NotAfter(r.0, r.1)
    ensures multiset{r.0, r.1} == multiset{a, b}
  {
    KeyOrder(a, b);
    if StrLess(Key(a), Key(b)) then (a, b) else (b, a)
  }

  /** The validation and record building of `handleSave`: every field must
      be filled in and the selection must hold two days; the record is the
      original booking with the form's fields and the selection in order. */
  function UpdatedBooking(booking: Booking, form: Form, selection: seq<Day>): (r: Result<Booking, string>)
    ensures r.Failure? <==> form.name == [] || form.email == [] || form.phone == [] || |selection| != 2
    ensures r.Failure? ==>
      r.error == if form.name == [] || form.email == [] || form.phone == [] then FillInMessage else SelectDatesMessage
    ensures r.Success? ==> NotAfter(r.value.startDate, r.value.endDate)
    ensures r.Success? ==> multiset{r.value.startDate, r.value.endDate} == multiset(selection)
    ensures r.Success? ==> r.value == booking.(name := form.name, email := form.email, phone := form.phone,
                                               startDate := r.value.startDate, endDate := r.value.endDate)
  {
    if form.name == [] || form.email == [] || form.phone == [] then Failure(FillInMessage)
    else if |selection| != 2 then Failure(SelectDatesMessage)
    else
      assert selection == [selection[0], selection[1]];
      var (startDate, endDate) := InOrder(selection[0], selection[1]);
      Success(booking.(name := form.name, email := form.email, phone := form.phone,
                       startDate := startDate, endDate := endDate))
  }

  class EditBookingModal {
    const booking: Booking
    const vehicle: Vehicle
    /** `bookedDates`: the keys of the days other bookings of this vehicle
        take. */
    const occupied: set<string>
    var form: Form
    var selection: seq<Day>
    var error: Option<string>
    /** `showConfirmDelete` and `deleting`. */
    var confirmingDelete: bool
    var deleting: bool

    ghost predicate Valid()
      reads this
    {
      |selection| <= 2
    }

    /** Opening the view: the form holds the booking's details and the
        selection its own start and end. */
    constructor (booking: Booking, vehicle: Vehicle, bookings: seq<Booking>)
      ensures Valid()
      ensures this.booking == booking && this.vehicle == vehicle
      ensures form == Form(booking.name, booking.email, booking.phone)
      ensures selection == [booking.startDate, booking.endDate] && error == None
      ensures !confirmingDelete && !deleting
      ensures forall x: Day :: Key(x) in occupied <==> OccupiedForEdit(x, bookings, vehicle.vehicleId, booking.bookingId)
    {
      var taken := EditBookedDates(bookings, vehicle, booking);
      this.booking := booking;
      this.vehicle := vehicle;
      occupied := taken;
      form := Form(booking.name, booking.email, booking.phone);
      selection := [booking.startDate, booking.endDate];
      error := None;
      confirmingDelete, deleting := false, false;
    }

    /** `handleDateClick`: the code compares the keys as strings; the
        outcome is the one `Click` states on days. */
    method DateClick(d: Day)
      requires Valid()
      modifies this`selection, this`error
      ensures Valid()
      ensures selection == Click(old(selection), occupied, d).selection
      ensures error == if Click(old(selection), occupied, d).rangeError then Some(RangeMessage) else old(error)
    {
      if Key(d) in occupied {
        return;
      }
      if |selection| == 0 || |selection| == 2 {
        selection := [d];
      } else if |selection| == 1 {
        var first := selection[0];
        KeyOrder(first, d);
        if Key(first) == Key(d) {
          return;
        }
        var lo, hi := d, first;
        if StrLess(Key(first), Key(d)) {
          lo, hi := first, d;
        }
        var valid := RangeIsFree(occupied, lo, hi);
        if !valid {
          error := Some(RangeMessage);
          return;
        }
        selection := [lo, hi];
      }
    }

    /** `handleInput`: one field of the form takes the typed value. */
    method Input(field: Field, value: string)
      requires Valid()
      modifies this`form
      ensures Valid()
      ensures form == match field
        case Name => old(form).(name := value)
        case Email => old(form).(email := value)
        case Phone => old(form).(phone := value)
    {
      match field
      case Name => form := form.(name := value);
      case Email => form := form.(email := value);
      case Phone => form := form.(phone := value);
    }

    /** `handleSave` up to the request: either the record to send, or no
        record and the validation message. */
    method Save() returns (request: Option<Booking>)
      requires Valid()
      modifies this`error
      ensures request.Some? <==> UpdatedBooking(booking, form, selection).Success?
      ensures request.Some? ==> request.value == UpdatedBooking(booking, form, selection).value
      ensures request.None? ==> error == Some(UpdatedBooking(booking, form, selection).error)
      ensures request.Some? ==> error == old(error)
    {
      match UpdatedBooking(booking, form, selection)
      case Success(updated) =>
        request := Some(updated);
      case Failure(message) =>
        error := Some(message);
        request := None;
    }
  
    /** The "Delete Booking" button opens the confirmation prompt. */
    method AskDelete()
      requires Valid()
      modifies this`confirmingDelete
      ensures Valid()
      ensures confirmingDelete
    {
      confirmingDelete := true;
    }

    /** "No, Cancel" closes the prompt. */
    method CancelDelete()
      requires Valid()
      modifies this`confirmingDelete
      ensures Valid()
      ensures !confirmingDelete
    {
      confirmingDelete := false;
    }

    /** `handleDelete`, given whether the DELETE request succeeded: on
        success the prompt and the view close; on failure only the busy flag
        drops, so the prompt stays open for another try. */
    method HandleDelete(deleteOk: bool) returns (closed: bool)
      requires Valid()
      modifies this`confirmingDelete, this`deleting
      ensures Valid()
      ensures closed == deleteOk && !deleting
      ensures confirmingDelete == (!deleteOk && old(confirmingDelete))
    {
      deleting := true;
      if deleteOk {
        deleting := false;
        confirmingDelete := false;
        closed := true;
      } else {
        deleting := false;
        closed := false;
      }
    }
  }
}
