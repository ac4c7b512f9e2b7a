/** The edit view's two-click range selector: the selection holds zero, one
    or two days; a click on a free day starts a new selection or, as the
    second click, completes a range that must not hold an occupied day. */
module RangeSelection {
  import opened Text
  import opened Calendar

  /** No day of the closed range from `lo` to `hi` is occupied. */
  ghost predicate RangeFree(occupied: set<string>, lo: Day, hi: Day)
  {
    forall x: Day :: NotAfter(lo, x) && NotAfter(x, hi) ==> Key(x) !in occupied
  }

  /** The walk of `handleDateClick` from `range[0]` to `range[1]`, stopping
      at the first occupied day. */
  method RangeIsFree(occupied: set<string>, lo: Day, hi: Day) returns (valid: bool)
    ensures valid <==> RangeFree(occupied, lo, hi)
  {
    var current: Date := lo;
    valid := true;
    while NotAfter(current, hi)
      invariant IsCalendarDate(current) && NotAfter(lo, current)
      invariant NotAfter(lo, hi) ==> NotAfter(current, Next(hi))
      invariant !NotAfter(lo, hi) ==> current == lo
      invariant forall x: Day :: NotAfter(lo, x) && Before(x, current) ==> Key(x) !in occupied
      decreases Rank(hi) - Rank(current)
    {
      var day: Day := current;
      if Key(day) in occupied {
        valid := false;
        break;
      }
      forall x: Day
        ensures Before(x, Next(current)) <==> Before(x, current) || x == current
      {
        NextIsSuccessor(current, x);
      }
      NextIsSuccessor(current, hi);
      NextIsSuccessor(current, Next(hi));
      RankMonotone(current, Next(current));
      current := Next(current);
    }
    if valid {
      NextIsSuccessor(hi, current);
      forall x: Day | NotAfter(lo, x) && NotAfter(x, hi)
        ensures Key(x) !in occupied
      {
        NextIsSuccessor(hi, x);
      }
    }
  }

  /** The new selection after a click, and whether the click was refused
      because its range holds an occupied day. */
  datatype ClickOutcome = ClickOutcome(selection: seq<Day>, rangeError: bool)

  function Earlier(a: Day, b: Day): Day
  {
    if Before(a, b) then a else b
  }

  function Later(a: Day, b: Day): Day
  {
    if Before(a, b) then b else a
  }

  /** What a click on day `d` does to the selection, stated on days. */
  ghost function Click(selection: seq<Day>, occupied: set<string>, d: Day): (o: ClickOutcome)
    ensures |selection| <= 2 ==> |o.selection| <= 2
    ensures o.selection != selection ==> Key(d) !in occupied && d in o.selection
    ensures |o.selection| == 2 && o.selection != selection ==>
      |selection| == 1 && Before(o.selection[0], o.selection[1]) && RangeFree(occupied, o.selection[0], o.selection[1])
      && {o.selection[0], o.selection[1]} == {selection[0], d}
    ensures o.rangeError ==> o.selection == selection && |selection| == 1 && !RangeFree(occupied, Earlier(selection[0], d), Later(selection[0], d))
  {
    if Key(d) in occupied then ClickOutcome(selection, false)
    else if |selection| == 0 || |selection| == 2 then ClickOutcome([d], false)
    else if |selection| == 1 then
      var first := selection[0];
      if first == d then ClickOutcome(selection, false)
      else
        var lo, hi := Earlier(first, d), Later(first, d);
        if RangeFree(occupied, lo, hi) then ClickOutcome([lo, hi], false)
        else ClickOutcome(selection, true)
    else ClickOutcome(selection, false)
  }

  /** Clicking a day whose key is occupied is ignored, as is clicking the one
      selected day again; either way no two-day selection appears. */
  lemma ClickIgnored(selection: seq<Day>, occupied: set<string>, d: Day)
    requires Key(d) in occupied || selection == [d]
    ensures Click(selection, occupied, d) == ClickOutcome(selection, false)
  {
  }

  /** From an empty or a complete selection, a free day starts over. */
  lemma ClickRestarts(selection: seq<Day>, occupied: set<string>, d: Day)
    requires |selection| == 0 || |selection| == 2
    requires Key(d) !in occupied
    ensures Click(selection, occupied, d) == ClickOutcome([d], false)
  {
  }

  /** Two clicks on free days `d1` and `d2 != d1`, made from an empty or
      complete selection, give the ascending pair when the range between
      them is free, and otherwise leave `[d1]` and report the collision. */
  lemma TwoClicks(selection: seq<Day>, occupied: set<string>, d1: Day, d2: Day)
    requires |selection| == 0 || |selection| == 2
    requires Key(d1) !in occupied && Key(d2) !in occupied && d1 != d2
    ensures var o := Click(Click(selection, occupied, d1).selection, occupied, d2);
      if RangeFree(occupied, Earlier(d1, d2), Later(d1, d2))
      then o == ClickOutcome([Earlier(d1, d2), Later(d1, d2)], false) && Before(o.selection[0], o.selection[1])
      else o == ClickOutcome([d1], true)
  {
    ClickRestarts(selection, occupied, d1);
  }
}
