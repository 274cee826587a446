/** `get_upcoming_birthdays`: for each contact with a birthday, in book
    order, take this year's occurrence (next year's when this year's is
    already past); when it is 0..6 days after the reference date, list the
    name under the weekday of that occurrence. The reference date is a
    parameter standing for `date.today()`. */
module Upcoming {
  import opened Results
  import opened Calendar
  import opened Records
  import opened AddressBook
  import opened Lists

  /** The `ValueError`s of `date.replace(year=…)`: the year is checked
      first, then the day against the month of the new year. */
  datatype ReplaceError = YearOutOfRange | DayOutOfRange

  predicate IsLeapDay(d: Date) {
    d.month == 2 && d.day == 29
  }

  /** `d.replace(year=y)`: fails for a year outside 1..9999 and for
      29 February in a year that is not leap. */
  function ReplaceYear(d: Date, y: int): (r: Result<Date, ReplaceError>)
    requires ValidDate(d)
    ensures r.Success? <==> MinYear <= y <= MaxYear && (IsLeapDay(d) ==> IsLeap(y))
    ensures r.Success? ==> r.value == Date(y, d.month, d.day) && ValidDate(r.value)
    ensures r.Failure? ==> (r.error == YearOutOfRange <==> !(MinYear <= y <= MaxYear))
  {
    if y < MinYear || y > MaxYear then Failure(YearOutOfRange)
    else if d.day > DaysInMonth(y, d.month) then Failure(DayOutOfRange)
    else Success(Date(y, d.month, d.day))
  }

  /** The occurrence of birthday `b` the query looks at: the earliest date
      with `b`'s month and day that is not before `today`, provided it lies
      in this year or the next. The computation fails for a 29 February
      birthday unless this year is leap and its 29 February is still
      ahead, and for any birthday already past in the year 9999. */
  function NextOccurrence(b: Date, today: Date): (r: Result<Date, ReplaceError>)
    requires ValidDate(b) && ValidDate(today)
    ensures r.Success? ==> ValidDate(r.value) && r.value.month == b.month && r.value.day == b.day
    ensures r.Success? ==> !Before(r.value, today)
    ensures r.Success? ==> forall y :: ValidDate(Date(y, b.month, b.day)) && !Before(Date(y, b.month, b.day), today)
                                       ==> r.value.year <= y
    ensures r.Failure? <==>
              || (IsLeapDay(b) && (!IsLeap(today.year) || Before(Date(today.year, 2, 29), today)))
              || (today.year == MaxYear && Before(Date(MaxYear, b.month, b.day), today))
  {
    var thisYear :- ReplaceYear(b, today.year);
    if Before(thisYear, today) then ReplaceYear(b, today.year + 1) else Success(thisYear)
  }

  /** `(occurrence - today).days`. */
  function DaysUntil(occ: Date, today: Date): (n: int)
    requires ValidDate(occ) && ValidDate(today) && !Before(occ, today)
    ensures n >= 0
    ensures n == 0 <==> occ == today
  {
    OrdinalOrder(occ, today);
    OrdinalOrder(today, occ);
    Ordinal(occ) - Ordinal(today)
  }

  /** The weekday under which the query lists `r`, if it lists `r` at all:
      the weekday of a date with the birthday's month and day among the
      seven days starting with `today`. A contact without a birthday is
      never listed (`DueDayWithinWeek` gives the converse). */
  function DueDay(r: Record, today: Date): (w: Option<Weekday>)
    requires WellFormed(r) && ValidDate(today)
    ensures r.birthday.None? ==> w == None
    ensures w.Some? ==>
              exists o :: ValidDate(o) && o.month == r.birthday.value.month && o.day == r.birthday.value.day
                          && Ordinal(today) <= Ordinal(o) < Ordinal(today) + 7 && WeekdayOf(o) == w.value
  {
    match r.birthday
    case None => None
    case Some(b) =>
      match NextOccurrence(b, today)
      case Failure(_) => None
      case Success(o) =>
        if DaysUntil(o, today) < 7 then
          assert Ordinal(today) <= Ordinal(o) < Ordinal(today) + 7;
          Some(WeekdayOf(o))
        else None
  }

  /** One entry of the result dictionary: a weekday and its names. */
  datatype Group = Group(day: Weekday, names: seq<string>)

  /** The keys of the result, in insertion order. */
  function Days(gs: seq<Group>): (ds: seq<Weekday>)
    ensures |ds| == |gs| && forall k :: 0 <= k < |gs| ==> ds[k] == gs[k].day
  {
    seq(|gs|, k requires 0 <= k < |gs| => gs[k].day)
  }

  /** `result.get(w, [])`: the group of the first entry for `w`. */
  function Lookup(gs: seq<Group>, w: Weekday): seq<string> {
    var i := FirstIndex(Days(gs), w);
    if i < |gs| then gs[i].names else []
  }

  predicate DistinctDays(gs: seq<Group>) {
    forall i, j :: 0 <= i < j < |gs| ==> gs[i].day != gs[j].day
  }

  predicate NonEmptyGroups(gs: seq<Group>) {
    forall k :: 0 <= k < |gs| ==> gs[k].names != []
  }

  /** `result.setdefault(w, []).append(n)`: the group of `w` is extended
      where it stands, or created at the end when missing; the other groups
      keep their place and contents (`InsertLookup` states the contents). */
  function Insert(gs: seq<Group>, w: Weekday, n: string): (r: seq<Group>)
    ensures w in Days(gs) ==> Days(r) == Days(gs)
    ensures w !in Days(gs) ==> Days(r) == Days(gs) + [w]
    ensures NonEmptyGroups(gs) ==> NonEmptyGroups(r)
  {
    var i := FirstIndex(Days(gs), w);
    if i == |gs| then
      var r := gs + [Group(w, [n])];
      assert Days(r) == Days(gs) + [w];
      r
    else
      var r := gs[i := gs[i].(names := gs[i].names + [n])];
      assert Days(r) == Days(gs);
      r
  }

  /** After inserting `n` under `w`, looking up `w` gives the old group
      with `n` at its end, and every other weekday gives what it gave. */
  lemma InsertLookup(gs: seq<Group>, w: Weekday, n: string, v: Weekday)
    ensures Lookup(Insert(gs, w, n), v) == if v == w then Lookup(gs, w) + [n] else Lookup(gs, v)
  {
    var r := Insert(gs, w, n);
    if w !in Days(gs) {
      FirstIndexSnoc(Days(gs), w, v);
    }
  }

  /** Inserting never creates a second group for a weekday. */
  lemma InsertDistinct(gs: seq<Group>, w: Weekday, n: string)
    requires DistinctDays(gs)
    ensures DistinctDays(Insert(gs, w, n))
  {
    var r := Insert(gs, w, n);
    assert forall k :: 0 <= k < |r| ==> Days(r)[k] == r[k].day;
  }

  /** The birthday of `r`, if any, can be moved to the year the query needs. */
  predicate Movable(r: Record, today: Date)
    requires WellFormed(r) && ValidDate(today)
  {
    r.birthday.Some? ==> NextOccurrence(r.birthday.value, today).Success?
  }

  /** Every birthday in `rs` can be moved to the year the query needs. */
  predicate Computable(rs: seq<Record>, today: Date)
    requires ValidDate(today) && forall k :: 0 <= k < |rs| ==> WellFormed(rs[k])
  {
    forall k :: 0 <= k < |rs| ==> Movable(rs[k], today)
  }

  /** The names listed under `w`, in book order: the reference the query
      is proved against. */
  function NamesOn(rs: seq<Record>, today: Date, w: Weekday): seq<string>
    requires ValidDate(today) && forall k :: 0 <= k < |rs| ==> WellFormed(rs[k])
    decreases |rs|
  {
    if |rs| == 0 then []
    else
      var last := rs[|rs| - 1];
      NamesOn(rs[..|rs| - 1], today, w) + (if DueDay(last, today) == Some(w) then [last.name] else [])
  }

  /** The loop of `get_upcoming_birthdays` over the first `|rs|` entries.
      It stops at the first birthday that cannot be moved to the needed
      year (`CollectGroups` states what it builds otherwise). */
  function Collect(rs: seq<Record>, today: Date): (r: Result<seq<Group>, ReplaceError>)
    requires ValidDate(today) && forall k :: 0 <= k < |rs| ==> WellFormed(rs[k])
    ensures r.Success? <==> Computable(rs, today)
    ensures r.Success? ==> NonEmptyGroups(r.value)
    decreases |rs|
  {
    if |rs| == 0 then Success([])
    else
      var init := rs[..|rs| - 1];
      assert forall k :: 0 <= k < |init| ==> init[k] == rs[k];
      var gs :- Collect(init, today);
      var rec := rs[|rs| - 1];
      assert WellFormed(rs[|rs| - 1]);
      match rec.birthday
      case None => Success(gs)
      case Some(b) =>
        var occ :- NextOccurrence(b, today);
        var delta := Ordinal(occ) - Ordinal(today);
        if 0 <= delta < 7 then
          Success(Insert(gs, WeekdayOfOrdinal(Ordinal(today) + delta), rec.name))
        else
          Success(gs)
  }

  /** One turn of the loop: the last entry's name is appended under the
      weekday it is due on, if any. */
  lemma CollectStep(rs: seq<Record>, init: seq<Record>, rec: Record, today: Date)
    requires ValidDate(today) && forall k :: 0 <= k < |rs| ==> WellFormed(rs[k])
    requires rs == init + [rec] && WellFormed(rec) && forall k :: 0 <= k < |init| ==> WellFormed(init[k])
    requires Collect(rs, today).Success?
    ensures Collect(init, today).Success?
    ensures DueDay(rec, today).None? ==> Collect(rs, today).value == Collect(init, today).value
    ensures DueDay(rec, today).Some? ==>
              Collect(rs, today).value == Insert(Collect(init, today).value, DueDay(rec, today).value, rec.name)
  {
    assert rs[..|rs| - 1] == init;
    if rec.birthday.Some? {
      var next := NextOccurrence(rec.birthday.value, today);
      assert next.Success?;
      ShiftedWeekday(today, next.value);
    }
  }

  /** `today + (occurrence - today)` falls on the occurrence's weekday. */
  lemma ShiftedWeekday(today: Date, occ: Date)
    requires ValidDate(today) && ValidDate(occ)
    ensures WeekdayOfOrdinal(Ordinal(today) + (Ordinal(occ) - Ordinal(today))) == WeekdayOf(occ)
  {
  }

  lemma NamesOnStep(rs: seq<Record>, init: seq<Record>, rec: Record, today: Date, w: Weekday)
    requires ValidDate(today) && forall k :: 0 <= k < |rs| ==> WellFormed(rs[k])
    requires rs == init + [rec] && WellFormed(rec) && forall k :: 0 <= k < |init| ==> WellFormed(init[k])
    ensures NamesOn(rs, today, w) == NamesOn(init, today, w) + (if DueDay(rec, today) == Some(w) then [rec.name] else [])
  {
    assert rs[..|rs| - 1] == init;
  }

  /** The loop never makes a second key for a weekday. */
  lemma {:induction false} CollectDistinct(rs: seq<Record>, today: Date)
    requires ValidDate(today) && forall k :: 0 <= k < |rs| ==> WellFormed(rs[k])
    requires Collect(rs, today).Success?
    ensures DistinctDays(Collect(rs, today).value)
    decreases |rs|
  {
    if |rs| > 0 {
      var init, rec := rs[..|rs| - 1], rs[|rs| - 1];
      assert rs == init + [rec] && WellFormed(rs[|rs| - 1]);
      assert forall k :: 0 <= k < |init| ==> init[k] == rs[k];
      CollectStep(rs, init, rec, today);
      CollectDistinct(init, today);
      if DueDay(rec, today).Some? {
        InsertDistinct(Collect(init, today).value, DueDay(rec, today).value, rec.name);
      }
    }
  }

  /** When the loop completes, the group of each weekday holds exactly the
      names due on it, in book order. */
  lemma {:induction false} CollectLookup(rs: seq<Record>, today: Date, w: Weekday)
    requires ValidDate(today) && forall k :: 0 <= k < |rs| ==> WellFormed(rs[k])
    requires Collect(rs, today).Success?
    ensures Lookup(Collect(rs, today).value, w) == NamesOn(rs, today, w)
    decreases |rs|
  {
    if |rs| > 0 {
      var init, rec := rs[..|rs| - 1], rs[|rs| - 1];
      assert rs == init + [rec] && WellFormed(rs[|rs| - 1]);
      assert forall k :: 0 <= k < |init| ==> init[k] == rs[k];
      CollectStep(rs, init, rec, today);
      CollectLookup(init, today, w);
      NamesOnStep(rs, init, rec, today, w);
      if DueDay(rec, today).Some? {
        InsertLookup(Collect(init, today).value, DueDay(rec, today).value, rec.name, w);
      }
    }
  }

  /** The weekdays on which someone is due, each once, in the order of
      the first contact (in book order) due on it. */
  function DueDaysInOrder(rs: seq<Record>, today: Date): seq<Weekday>
    requires ValidDate(today) && forall k :: 0 <= k < |rs| ==> WellFormed(rs[k])
    decreases |rs|
  {
    if |rs| == 0 then []
    else
      var init := rs[..|rs| - 1];
      var seen := DueDaysInOrder(init, today);
      match DueDay(rs[|rs| - 1], today)
      case Some(d) => if d in seen then seen else seen + [d]
      case None => seen
  }

  /** The result's keys come in the order of the first contact due on
      each weekday. */
  lemma {:induction false} CollectKeyOrder(rs: seq<Record>, today: Date)
    requires ValidDate(today) && forall k :: 0 <= k < |rs| ==> WellFormed(rs[k])
    requires Collect(rs, today).Success?
    ensures Days(Collect(rs, today).value) == DueDaysInOrder(rs, today)
    decreases |rs|
  {
    if |rs| > 0 {
      var init, rec := rs[..|rs| - 1], rs[|rs| - 1];
      assert rs == init + [rec] && WellFormed(rs[|rs| - 1]);
      assert forall k :: 0 <= k < |init| ==> init[k] == rs[k];
      CollectStep(rs, init, rec, today);
      CollectKeyOrder(init, today);
    }
  }

  /** When the loop completes, each weekday key appears once and holds
      exactly the names due on that weekday, in book order. */
  lemma CollectGroups(rs: seq<Record>, today: Date)
    requires ValidDate(today) && forall k :: 0 <= k < |rs| ==> WellFormed(rs[k])
    requires Collect(rs, today).Success?
    ensures DistinctDays(Collect(rs, today).value)
    ensures forall w :: Lookup(Collect(rs, today).value, w) == NamesOn(rs, today, w)
  {
    CollectDistinct(rs, today);
    forall w ensures Lookup(Collect(rs, today).value, w) == NamesOn(rs, today, w) {
      CollectLookup(rs, today, w);
    }
  }


  /** The weekday under which `r` is listed is an independent fact about
      the calendar: some date of the seven starting with `today` has the
      birthday's month and day, and `w` is that date's weekday. (When the
      birthday cannot be moved, the whole query fails instead.) */
  lemma DueDayWithinWeek(r: Record, today: Date, w: Weekday)
    requires WellFormed(r) && ValidDate(today) && Movable(r, today) && r.birthday.Some?
    ensures DueDay(r, today) == Some(w) <==>
              exists o :: ValidDate(o) && o.month == r.birthday.value.month && o.day == r.birthday.value.day
                          && Ordinal(today) <= Ordinal(o) < Ordinal(today) + 7 && WeekdayOf(o) == w
  {
    var b := r.birthday.value;
    var occ := NextOccurrence(b, today).value;
    OrdinalOrder(occ, today);
    if DueDay(r, today) == Some(w) {
      assert WeekdayOf(occ) == w;
    }
    if o :| ValidDate(o) && o.month == b.month && o.day == b.day
            && Ordinal(today) <= Ordinal(o) < Ordinal(today) + 7 && WeekdayOf(o) == w {
      OrdinalOrder(o, today);
      assert o == Date(o.year, b.month, b.day);
      assert occ.year <= o.year;
      if occ.year < o.year {
        SameDayYearsApart(occ, o);
        assert false;
      }
      assert occ == o;
    }
  }

  /** A weekday is a key of the result exactly when some name is due on it. */
  lemma LookupKeys(gs: seq<Group>, w: Weekday)
    requires NonEmptyGroups(gs)
    ensures w in Days(gs) <==> Lookup(gs, w) != []
  {
  }

  /** `NamesOn` lists a name exactly when the book maps it to a record due
      on `w`. */
  lemma {:induction false} NamesOnMembers(rs: seq<Record>, today: Date, w: Weekday, n: string)
    requires ValidDate(today) && Valid(Book(rs))
    ensures n in NamesOn(rs, today, w) <==> Find(Book(rs), n).Some? && DueDay(Find(Book(rs), n).value, today) == Some(w)
    decreases |rs|
  {
    if |rs| > 0 {
      var init := rs[..|rs| - 1];
      var last := rs[|rs| - 1];
      assert forall k :: 0 <= k < |init| ==> init[k] == rs[k];
      assert Valid(Book(init));
      NamesOnMembers(init, today, w, n);
      LastNameFresh(rs);
    }
  }

  /** No name is listed twice under a weekday. */
  lemma {:induction false} NamesOnDistinct(rs: seq<Record>, today: Date, w: Weekday)
    requires ValidDate(today) && Valid(Book(rs))
    ensures forall i, j :: 0 <= i < j < |NamesOn(rs, today, w)| ==> NamesOn(rs, today, w)[i] != NamesOn(rs, today, w)[j]
    decreases |rs|
  {
    if |rs| > 0 {
      var init := rs[..|rs| - 1];
      var last := rs[|rs| - 1];
      assert forall k :: 0 <= k < |init| ==> init[k] == rs[k];
      assert Valid(Book(init));
      NamesOnDistinct(init, today, w);
      NamesOnMembers(init, today, w, last.name);
      LastNameFresh(rs);
    }
  }

  /** When the loop stops, it reports the error of the first birthday, in
      book order, that cannot be moved. */
  lemma {:induction false} CollectFailure(rs: seq<Record>, today: Date) returns (k: int)
    requires ValidDate(today) && forall k :: 0 <= k < |rs| ==> WellFormed(rs[k])
    requires Collect(rs, today).Failure?
    ensures 0 <= k < |rs| && rs[k].birthday.Some?
    ensures forall j :: 0 <= j < k ==> Movable(rs[j], today)
    ensures !Movable(rs[k], today)
    ensures Collect(rs, today).error == NextOccurrence(rs[k].birthday.value, today).error
    decreases |rs|
  {
    var init := rs[..|rs| - 1];
    assert forall j :: 0 <= j < |init| ==> init[j] == rs[j];
    if Collect(init, today).Failure? {
      k := CollectFailure(init, today);
    } else {
      k := |rs| - 1;
      assert Computable(init, today);
    }
  }

  lemma UpcomingFacts(b: Book, today: Date)
    requires Valid(b) && ValidDate(today) && Collect(b.records, today).Success?
    ensures forall w, n :: n in Lookup(Collect(b.records, today).value, w) <==>
                           Find(b, n).Some? && DueDay(Find(b, n).value, today) == Some(w)
    ensures forall w :: w in Days(Collect(b.records, today).value) <==> Lookup(Collect(b.records, today).value, w) != []
    ensures forall w, i, j :: 0 <= i < j < |Lookup(Collect(b.records, today).value, w)| ==>
                              Lookup(Collect(b.records, today).value, w)[i] != Lookup(Collect(b.records, today).value, w)[j]
  {
    var gs := Collect(b.records, today).value;
    CollectGroups(b.records, today);
    forall w, n ensures n in Lookup(gs, w) <==> Find(b, n).Some? && DueDay(Find(b, n).value, today) == Some(w) {
      NamesOnMembers(b.records, today, w, n);
    }
    forall w ensures w in Days(gs) <==> Lookup(gs, w) != [] {
      LookupKeys(gs, w);
    }
    forall w ensures forall i, j :: 0 <= i < j < |Lookup(gs, w)| ==> Lookup(gs, w)[i] != Lookup(gs, w)[j] {
      NamesOnDistinct(b.records, today, w);
    }
  }

  /** `get_upcoming_birthdays`, with `today` given. It fails with the error
      of the first birthday (in book order) that cannot be moved to the
      year needed; otherwise the weekday keys are distinct, a weekday is a
      key exactly when someone is due on it, and its list holds, once each
      and in book order, exactly the contacts whose birthday falls on that
      weekday within the seven days starting today. The weekdays come in
      the order of the first contact due on each. */
  function GetUpcomingBirthdays(b: Book, today: Date): (r: Result<seq<Group>, ReplaceError>)
    requires Valid(b) && ValidDate(today)
    ensures r.Success? <==> Computable(b.records, today)
    ensures r.Success? ==> DistinctDays(r.value) && NonEmptyGroups(r.value)
    ensures r.Success? ==> forall w :: Lookup(r.value, w) == NamesOn(b.records, today, w)
    ensures r.Success? ==> Days(r.value) == DueDaysInOrder(b.records, today)
    ensures r.Success? ==> forall w, n :: n in Lookup(r.value, w) <==>
                                          Find(b, n).Some? && DueDay(Find(b, n).value, today) == Some(w)
    ensures r.Success? ==> forall w :: w in Days(r.value) <==> Lookup(r.value, w) != []
    ensures r.Success? ==> forall w, i, j :: 0 <= i < j < |Lookup(r.value, w)| ==> Lookup(r.value, w)[i] != Lookup(r.value, w)[j]
  {
    var r := Collect(b.records, today);
    if r.Success? then
      CollectGroups(b.records, today);
      CollectKeyOrder(b.records, today);
      UpcomingFacts(b, today);
      r
    else r
  }

  /** With today Monday 10 June 2024, a birthday on 13 June is due on
      Thursday; one on 9 June is already past and next year's is too far. */
  lemma WeekAheadDueDays()
    ensures DueDay(Record("Bob", [], Some(Date(1990, 6, 13))), Date(2024, 6, 10)) == Some(Thursday)
    ensures DueDay(Record("Carl", [], Some(Date(1985, 6, 9))), Date(2024, 6, 10)) == None
  {
    var today := Date(2024, 6, 10);
    assert NextOccurrence(Date(1990, 6, 13), today) == Success(Date(2024, 6, 13));
    assert NextOccurrence(Date(1985, 6, 9), today) == Success(Date(2025, 6, 9));
    KnownWeekdays();
  }

  /** The loop over Bob alone: his birthday is three days ahead, on a
      Thursday. */
  lemma WeekAheadBob()
    ensures Collect([Record("Bob", [], Some(Date(1990, 6, 13)))], Date(2024, 6, 10))
            == Success([Group(Thursday, ["Bob"])])
  {
    var bob, today := Record("Bob", [], Some(Date(1990, 6, 13))), Date(2024, 6, 10);
    var occ := Date(2024, 6, 13);
    assert NextOccurrence(Date(1990, 6, 13), today) == Success(occ);
    assert Ordinal(occ) - Ordinal(today) == 3;
    KnownWeekdays();
    assert WeekdayOfOrdinal(Ordinal(today) + 3) == Thursday;
    assert Insert([], Thursday, "Bob") == [Group(Thursday, ["Bob"])];
    assert [bob][..0] == [] && [bob][0] == bob;
    assert Collect([], today) == Success([]);
  }

  /** Carl's birthday has just passed, so the loop leaves the groups alone. */
  lemma WeekAheadLoop()
    ensures Collect([Record("Bob", [], Some(Date(1990, 6, 13))), Record("Carl", [], Some(Date(1985, 6, 9)))],
                    Date(2024, 6, 10))
            == Success([Group(Thursday, ["Bob"])])
  {
    var bob, carl := Record("Bob", [], Some(Date(1990, 6, 13))), Record("Carl", [], Some(Date(1985, 6, 9)));
    var today := Date(2024, 6, 10);
    var occ := Date(2025, 6, 9);
    assert NextOccurrence(Date(1985, 6, 9), today) == Success(occ);
    assert Ordinal(occ) - Ordinal(today) == 364;
    WeekAheadBob();
    assert [bob, carl][..1] == [bob] && [bob, carl][1] == carl;
  }

  /** The query lists Bob under Thursday and nobody else. */
  lemma WeekAheadExample()
    ensures var b := Book([Record("Bob", [], Some(Date(1990, 6, 13))), Record("Carl", [], Some(Date(1985, 6, 9)))]);
            GetUpcomingBirthdays(b, Date(2024, 6, 10)) == Success([Group(Thursday, ["Bob"])])
  {
    WeekAheadLoop();
  }
}
